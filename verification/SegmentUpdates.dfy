/** What reads and moves do to a file's interval map through the lookup: which bytes they reach, which
    ones they lose, and when the map stays an exact cover of the file. */
module SegmentUpdates {

  import opened Segments
  import opened IntervalMap

  // ----- what the lookup returns

  /** Among several keys of a disjoint map: the lookup finds something only if some key does not start
      before the request, and then it returns the keys that start in the request, and the one before
      them if it ends in the request. */
  ghost predicate IsReturned(m: SegmentMap, request: Segment, s: int) {
    && s in m
    && (exists t :: t in m && t >= request.start)
    && (request.start <= s <= request.end || (s < request.start <= m[s].end <= request.end))
  }

  lemma EndsBefore(m: SegmentMap, s: int, t: int)
    requires Disjoint(m) && s in m && t in m && s < t
    ensures m[s].end < t
  {
    if t <= m[s].end {
      StartsAreApart(m, s, t);
    }
  }

  /** Keys in order, with their bound and their run for a request. */
  ghost predicate AreKeys(m: SegmentMap, keys: seq<int>) {
    && (forall x :: x in keys <==> x in m)
    && (forall x, y :: 0 <= x < y < |keys| ==> keys[x] < keys[y])
  }

  lemma RunHasReturned(m: SegmentMap, keys: seq<int>, request: Segment, i: nat)
    requires Disjoint(m) && request.Nonempty() && AreKeys(m, keys)
    requires var from := RunStart(m, keys, request); i < |keys| && from <= i < RunEnd(m, keys, from, request)
    ensures IsReturned(m, request, keys[i])
  {
    KeysAreNonempty(m);
    hide RunEnd, LowerBound, Disjoint;
    var bound := LowerBound(keys, request.start);
    assert Related(KeyOf(m, keys[i]), request);
    assert bound < |keys| && keys[bound] in m;
  }

  /** A returned key is not in front of the run. */
  lemma RunStartsBefore(m: SegmentMap, keys: seq<int>, request: Segment, i: nat)
    requires Disjoint(m) && request.Nonempty() && AreKeys(m, keys)
    requires i < |keys| && IsReturned(m, request, keys[i])
    ensures RunStart(m, keys, request) <= i
  {
    hide LowerBound, Disjoint;
    var bound := LowerBound(keys, request.start);
    BoundExists(m, keys, request, i);
    if keys[i] < request.start {
      assert i < bound;
      if i < bound - 1 {
        EndsBefore(m, keys[i], keys[bound - 1]);
      }
    }
  }

  lemma BoundExists(m: SegmentMap, keys: seq<int>, request: Segment, i: nat)
    requires AreKeys(m, keys) && i < |keys| && IsReturned(m, request, keys[i])
    ensures LowerBound(keys, request.start) < |keys|
  {
    var t :| t in m && t >= request.start;
    var y :| 0 <= y < |keys| && keys[y] == t;
    hide LowerBound;
    assert LowerBound(keys, request.start) <= y;
  }

  /** From the start of the run up to a returned key all keys are related. */
  lemma RunRelates(m: SegmentMap, keys: seq<int>, request: Segment, i: nat, x: nat)
    requires Disjoint(m) && request.Nonempty() && AreKeys(m, keys)
    requires i < |keys| && IsReturned(m, request, keys[i])
    requires RunStart(m, keys, request) <= x <= i
    ensures Related(KeyOf(m, keys[x]), request)
  {
    KeysAreNonempty(m);
    hide LowerBound, Disjoint;
    var bound := LowerBound(keys, request.start);
    assert keys[x] in m && keys[x] <= keys[i] <= request.end;
    if x >= bound {
      assert keys[x] >= keys[bound] >= request.start;
    }
  }

  lemma ReturnedInRun(m: SegmentMap, keys: seq<int>, request: Segment, i: nat)
    requires Disjoint(m) && request.Nonempty() && AreKeys(m, keys)
    requires i < |keys| && IsReturned(m, request, keys[i])
    ensures var from := RunStart(m, keys, request); from <= i < RunEnd(m, keys, from, request)
  {
    RunStartsBefore(m, keys, request, i);
    var from := RunStart(m, keys, request);
    var end := RunEnd(m, keys, from, request);
    if end <= i {
      RunRelates(m, keys, request, i, end);
    }
  }

  lemma KeysAreNonempty(m: SegmentMap)
    requires Disjoint(m)
    ensures forall x :: x in m ==> KeyOf(m, x).Nonempty()
  {
  }

  lemma BetweenHas(keys: seq<int>, from: nat, to: nat, s: int)
    requires from <= to <= |keys|
    ensures s in Between(keys, from, to) <==> exists i :: from <= i < to && keys[i] == s
  {
    var part := Between(keys, from, to);
    if s in part {
      var j :| 0 <= j < |part| && part[j] == s;
      assert keys[from + j] == s;
    }
    if i :| from <= i < to && keys[i] == s {
      assert part[i - from] == s;
    }
  }

  lemma SortedAreKeys(m: SegmentMap)
    ensures AreKeys(m, Sorted(m.Keys))
  {
  }

  lemma ReturnedIff(m: SegmentMap, request: Segment, s: int)
    requires Disjoint(m) && |m| >= 2 && request.Nonempty()
    ensures s in LookupKeys(m, request) <==> IsReturned(m, request, s)
  {
    var keys := Sorted(m.Keys);
    SortedAreKeys(m);
    var from := RunStart(m, keys, request);
    var end := RunEnd(m, keys, from, request);
    BetweenHas(keys, from, end, s);
    assert LookupKeys(m, request) == Between(keys, from, end);
    hide Sorted, RunStart, RunEnd, Between, Disjoint, IsReturned, LookupKeys;
    if IsReturned(m, request, s) {
      ReturnedIsKey(m, request, s);
      var i :| 0 <= i < |keys| && keys[i] == s;
      ReturnedInRun(m, keys, request, i);
    }
    if i :| from <= i < end && keys[i] == s {
      RunHasReturned(m, keys, request, i);
    }
  }

  lemma ReturnedIsKey(m: SegmentMap, request: Segment, s: int)
    requires IsReturned(m, request, s)
    ensures s in m
  {
  }

  lemma ReturnedAscend(m: SegmentMap, request: Segment)
    ensures var found := LookupKeys(m, request); forall i, j :: 0 <= i < j < |found| ==> found[i] < found[j]
  {
    hide Sorted, RunStart, RunEnd;
  }

  /** A sole key is returned whatever the request is. */
  lemma SoleKeyReturned(m: SegmentMap, k: int, request: Segment)
    requires m.Keys == {k}
    ensures LookupKeys(m, request) == [k]
  {
    assert Sorted(m.Keys)[0] in m.Keys;
  }

  lemma EmptyRequestRun(m: SegmentMap, keys: seq<int>, request: Segment)
    requires Disjoint(m) && !request.Nonempty() && AreKeys(m, keys)
    ensures var from := RunStart(m, keys, request);
            RunEnd(m, keys, from, request) == from <==> request.start !in m
  {
    KeysAreNonempty(m);
    hide RunEnd, Disjoint;
    var bound, from := LowerBound(keys, request.start), RunStart(m, keys, request);
    assert 0 < bound < |keys| ==> keys[bound - 1] in m;
    assert from == bound;
    hide RunStart, LowerBound;
    if request.start in m {
      var i :| 0 <= i < |keys| && keys[i] == request.start;
      assert keys[bound] == request.start;
    } else if bound < |keys| {
      assert keys[bound] in m && !Related(KeyOf(m, keys[bound]), request);
    }
  }

  /** A request of no bytes finds, among several keys, the one that starts where it does. */
  lemma EmptyRequestFinds(m: SegmentMap, request: Segment)
    requires Disjoint(m) && |m| >= 2 && !request.Nonempty()
    ensures LookupKeys(m, request) != [] <==> request.start in m
  {
    SortedAreKeys(m);
    EmptyRequestRun(m, Sorted(m.Keys), request);
  }

  // ----- what happens to the returned keys

  lemma {:induction false} ItemsAgree(m: SegmentMap, n: SegmentMap, keys: seq<int>)
    requires forall x :: x in keys ==> x in m && x in n && m[x] == n[x]
    ensures ItemsAt(m, keys) == ItemsAt(n, keys)
  {
    if keys != [] {
      ItemsAgree(m, n, keys[1..]);
    }
  }

  /** All keys overlap the request, and none is named twice. */
  ghost predicate Changeable(m: SegmentMap, keys: seq<int>, request: Segment) {
    && (forall k :: k in keys ==> k in m && Overlap(KeyOf(m, k), request))
    && (forall i, j :: 0 <= i < j < |keys| ==> keys[i] != keys[j])
  }

  /** What a change of the keys does to a byte: it is lost if its key is one of them, starts before the
      request and ends before it does; it is changed if its key is one of them and it is requested. */
  ghost predicate Effect(m: SegmentMap, keys: seq<int>, request: Segment, change: Change, m': SegmentMap, b: int)
    requires forall k :: k in keys ==> k in m
  {
    && (HasByte(m', b) <==>
          HasByte(m, b) && !(KeyAt(m, b) in keys && Loses(KeyOf(m, KeyAt(m, b)), request, b)))
    && (HasByte(m', b) ==>
          if KeyAt(m, b) in keys && request.Covers(b) then
            var common := request.Intersect(KeyOf(m, KeyAt(m, b)));
            && ScoreAt(m', b) == NewScore(change, ScoreAt(m, b))
            && FileAt(m', b) == NewFile(change, request, common, FileAt(m, b))
            && KeyOf(m', KeyAt(m', b)) == common
          else
            && ScoreAt(m', b) == ScoreAt(m, b) && FileAt(m', b) == FileAt(m, b)
            && (KeyAt(m, b) !in keys ==> KeyOf(m', KeyAt(m', b)) == KeyOf(m, KeyAt(m, b))))
  }

  /** One key, and then the others. */
  lemma EffectsCompose(m: SegmentMap, a: int, rest: seq<int>, request: Segment, change: Change,
                       m1: SegmentMap, m2: SegmentMap, b: int)
    requires Disjoint(m) && a in m && a !in rest && forall k :: k in rest ==> k in m && k in m1 && m1[k] == m[k]
    requires Disjoint(m1)
    requires SplitEffect(m, a, request,
                         NewFile(change, request, request.Intersect(KeyOf(m, a)), m[a].file),
                         NewScore(change, m[a].score), m1, b)
    requires Effect(m1, rest, request, change, m2, b)
    ensures Effect(m, [a] + rest, request, change, m2, b)
  {
    hide Loses, NewFile, NewScore;
    assert forall x :: x in [a] + rest <==> x == a || x in rest;
    if HasByte(m1, b) {
      var k, s := KeyAt(m, b), KeyAt(m1, b);
      if k == a {
        if s in rest {
          StartsAreApart(m, a, s);
        }
      }
    }
  }

  /** Changing the first of some keys leaves the others to be changed. */
  lemma FirstKey(m: SegmentMap, keys: seq<int>, request: Segment, change: Change)
    requires keys != [] && Disjoint(m) && request.Nonempty() && Changeable(m, keys, request)
    ensures var m1 := Apply(m, ItemOf(m, keys[0]), request, change);
            && Disjoint(m1) && Changeable(m1, keys[1..], request) && keys[0] !in keys[1..]
            && (forall t :: t in m && t != keys[0] ==> t in m1 && m1[t] == m[t])
            && ApplyAll(m, ItemsAt(m, keys), request, change) == ApplyAll(m1, ItemsAt(m1, keys[1..]), request, change)
  {
    var a, rest, items := keys[0], keys[1..], ItemsAt(m, keys);
    var m1 := Apply(m, items[0], request, change);
    ReplaceSplits(m, a, request, NewFile(change, request, request.Intersect(KeyOf(m, a)), m[a].file),
                  NewScore(change, m[a].score));
    hide Apply, SplitEffect, Disjoint, Overlap;
    assert a !in rest;
    ItemsAgree(m, m1, rest);
    assert items[1..] == ItemsAt(m1, rest);
  }

  /** The keys overlap the request: the map stays disjoint, and every byte has the effect. */
  lemma {:induction false} ChangeKeys(m: SegmentMap, keys: seq<int>, request: Segment, change: Change)
    requires Disjoint(m) && request.Nonempty() && Changeable(m, keys, request)
    ensures var m' := ApplyAll(m, ItemsAt(m, keys), request, change);
            Disjoint(m') && forall b :: Effect(m, keys, request, change, m', b)
    decreases |keys|
  {
    if keys != [] {
      var a, rest := keys[0], keys[1..];
      var m1 := Apply(m, ItemOf(m, a), request, change);
      ReplaceSplits(m, a, request, NewFile(change, request, request.Intersect(KeyOf(m, a)), m[a].file),
                    NewScore(change, m[a].score));
      FirstKey(m, keys, request, change);
      ChangeKeys(m1, rest, request, change);
      var m2 := ApplyAll(m1, ItemsAt(m1, rest), request, change);
      assert keys == [a] + rest;
      hide Disjoint, Overlap, NewFile, NewScore, ApplyAll;
      forall b
        ensures Effect(m, keys, request, change, m2, b)
      {
        EffectsCompose(m, a, rest, request, change, m1, m2, b);
      }
    }
  }

  lemma ReturnedOverlap(m: SegmentMap, request: Segment)
    requires Disjoint(m) && |m| >= 2 && request.Nonempty()
    ensures Changeable(m, LookupKeys(m, request), request)
  {
    ReturnedAscend(m, request);
    KeysAreNonempty(m);
    hide LookupKeys, Disjoint, IsReturned, Overlap;
    forall k | k in LookupKeys(m, request)
      ensures k in m && Overlap(KeyOf(m, k), request)
    {
      ReturnedOne(m, request, k);
      ReturnedReach(m, request, k);
    }
  }

  lemma ReturnedReach(m: SegmentMap, request: Segment, k: int)
    requires IsReturned(m, request, k) && KeyOf(m, k).Nonempty()
    ensures Overlap(KeyOf(m, k), request)
  {
  }

  lemma ReturnedOne(m: SegmentMap, request: Segment, k: int)
    requires Disjoint(m) && |m| >= 2 && request.Nonempty() && k in LookupKeys(m, request)
    ensures IsReturned(m, request, k) && k in m
  {
    ReturnedIff(m, request, k);
  }

  /** The bytes that a read or a move applies to: the requested ones in the keys that the lookup returns. */
  ghost predicate Hit(m: SegmentMap, request: Segment, b: int)
    requires HasByte(m, b)
  {
    request.Covers(b) && KeyAt(m, b) in LookupKeys(m, request)
  }

  /** What an update makes of a byte that keeps a key, in numbers. A read that applies to it counts one and adds
      its recency; a move that applies to it puts it, on the destination, as many bytes from the start as it is from
      the start of what is moved, in a piece that is recorded with the size of its key. */
  ghost predicate Accounted(m: SegmentMap, request: Segment, change: Change, m': SegmentMap, b: int)
    requires HasByte(m, b) && HasByte(m', b)
  {
    var before, after := ScoreAt(m, b), ScoreAt(m', b);
    match change
    case Read(decay) =>
      && after.frequency == before.frequency + (if Hit(m, request, b) then 1 else 0)
      && after.lrf == before.lrf + (if Hit(m, request, b) then decay else 0.0)
      && FileAt(m', b) == FileAt(m, b)
    case Move(destination) =>
      && after == before
      && if Hit(m, request, b) then IsAt(FileAt(m', b), destination, b - request.start, KeyOf(m', KeyAt(m', b)), b)
         else FileAt(m', b) == FileAt(m, b)
  }

  /** The piece under the key is stored in f, on the destination, such that its byte b has the offset. */
  predicate IsAt(f: PosixFile, destination: PosixFile, offset: int, key: Segment, b: int) {
    && f.filename == destination.filename && f.layer == destination.layer
    && f.GetSize() == key.GetSize()
    && f.segment.start + (b - key.start) == offset
  }

  /** The refinement, for any disjoint map of several keys and any request: the bytes in front of the
      request are lost that are in a returned key which ends before the request does, the requested bytes
      of returned keys are changed, and all others stay as they are. */
  lemma UpdateRefines(m: SegmentMap, request: Segment, change: Change)
    requires Disjoint(m) && request.Nonempty()
    requires |m| >= 2 || forall k :: k in m ==> Overlap(KeyOf(m, k), request)
    ensures var m' := Updated(m, request, change);
            && Disjoint(m')
            && (forall b :: Effect(m, LookupKeys(m, request), request, change, m', b))
            && (forall b :: HasByte(m', b) ==> HasByte(m, b) && Accounted(m, request, change, m', b))
  {
    var keys := LookupKeys(m, request);
    if |m| >= 2 {
      ReturnedOverlap(m, request);
    } else {
      ReturnedAscend(m, request);
    }
    ChangeKeys(m, keys, request, change);
    var m' := Updated(m, request, change);
    hide Disjoint, LookupKeys, Updated, ApplyAll, HasByte;
    forall b | HasByte(m', b)
      ensures HasByte(m, b) && Accounted(m, request, change, m', b)
    {
      assert Effect(m, keys, request, change, m', b);
      EffectAccounts(m, request, change, m', b);
    }
  }

  lemma EffectAccounts(m: SegmentMap, request: Segment, change: Change, m': SegmentMap, b: int)
    requires Effect(m, LookupKeys(m, request), request, change, m', b) && HasByte(m', b)
    ensures HasByte(m, b) && Accounted(m, request, change, m', b)
  {
    hide LookupKeys;
  }

  // ----- exact covers

  /** When an update keeps the cover. A sole key is changed by any request, and split without loss only by
      one that does not end before it, and does not start within or behind it if it ends behind it. Among
      several keys a request must not start inside one that it goes on behind, unless that is the last. */
  ghost predicate KeepsCover(m: SegmentMap, request: Segment) {
    if |m| == 0 then true
    else if |m| == 1 then
      request.Nonempty()
      && forall k :: k in m ==> k <= request.end && (request.start <= k || request.end <= m[k].end)
    else if request.Nonempty() then
      forall k, t :: k in m && t in m && k < request.start <= m[k].end < request.end ==> t <= k
    else request.start !in m
  }

  lemma LostBreaks(m: SegmentMap, whole: Segment, keys: seq<int>, request: Segment, change: Change, m': SegmentMap,
                   k: int)
    requires Partition(m, whole) && (forall x :: x in keys ==> x in m) && Effect(m, keys, request, change, m', k)
    requires k in keys && Loses(KeyOf(m, k), request, k)
    ensures !Partition(m', whole)
  {
    assert KeyOf(m, k).Nonempty();
    KeyAtIs(m, k, k);
  }

  lemma UnlostStays(m: SegmentMap, keys: seq<int>, request: Segment, change: Change, m': SegmentMap, b: int)
    requires Disjoint(m) && (forall x :: x in keys ==> x in m) && Effect(m, keys, request, change, m', b)
    requires forall k :: k in keys ==> !Loses(KeyOf(m, k), request, k)
    ensures HasByte(m', b) <==> HasByte(m, b)
  {
  }

  lemma NothingLostKeeps(m: SegmentMap, whole: Segment, keys: seq<int>, request: Segment, change: Change,
                         m': SegmentMap)
    requires Partition(m, whole) && Disjoint(m') && (forall x :: x in keys ==> x in m)
    requires forall b :: Effect(m, keys, request, change, m', b)
    requires forall k :: k in keys ==> !Loses(KeyOf(m, k), request, k)
    ensures Partition(m', whole)
  {
    hide Effect, Loses, HasByte;
    forall b
      ensures HasByte(m', b) <==> HasByte(m, b)
    {
      UnlostStays(m, keys, request, change, m', b);
    }
  }

  /** A byte is lost exactly if the first byte of its key is. */
  lemma PartitionIffNothingLost(m: SegmentMap, whole: Segment, request: Segment, change: Change)
    requires Partition(m, whole) && request.Nonempty()
    requires |m| >= 2 || forall k :: k in m ==> Overlap(KeyOf(m, k), request)
    ensures Partition(Updated(m, request, change), whole) <==>
            forall k :: k in LookupKeys(m, request) ==> !Loses(KeyOf(m, k), request, k)
  {
    DisjointOf(m, whole);
    hide Partition, Disjoint;
    UpdateRefines(m, request, change);
    hide Updated, LookupKeys, Effect, Loses;
    var m', keys := Updated(m, request, change), LookupKeys(m, request);
    if k :| k in keys && Loses(KeyOf(m, k), request, k) {
      LostBreaks(m, whole, keys, request, change, m', k);
    } else {
      NothingLostKeeps(m, whole, keys, request, change, m');
    }
  }

  lemma {:induction false} LastPutStays(m: SegmentMap, items: seq<Item>, request: Segment, change: Change)
    requires items != []
    ensures var common := request.Intersect(items[|items| - 1].key);
            var m' := ApplyAll(m, items, request, change);
            common.start in m' && m'[common.start].end == common.end
    decreases |items|
  {
    if |items| > 1 {
      assert items[1..][|items[1..]| - 1] == items[|items| - 1];
      LastPutStays(Apply(m, items[0], request, change), items[1..], request, change);
    } else {
      assert items[1..] == [];
    }
  }

  /** A returned key that has no byte in common with the request leaves a key of no bytes, if it is the
      last one returned. */
  lemma EmptyPartBreaks(m: SegmentMap, whole: Segment, request: Segment, change: Change)
    requires LookupKeys(m, request) != []
    requires forall k :: k in LookupKeys(m, request) ==> !request.Intersect(KeyOf(m, k)).Nonempty()
    ensures !Partition(Updated(m, request, change), whole)
  {
    var keys, items := LookupKeys(m, request), Lookup(m, request);
    hide LookupKeys;
    var last := |keys| - 1;
    assert keys[last] in keys && items[last] == ItemOf(m, keys[last]);
    LastPutStays(m, items, request, change);
    var common, m' := request.Intersect(items[last].key), Updated(m, request, change);
    assert common.start in m' && KeyOf(m', common.start) == common && !common.Nonempty();
  }

  lemma NothingFoundNothingChanged(m: SegmentMap, request: Segment, change: Change)
    requires LookupKeys(m, request) == []
    ensures Updated(m, request, change) == m
  {
    hide LookupKeys;
  }

  /** For a file with several keys. */
  lemma ManyKeepIff(m: SegmentMap, whole: Segment, request: Segment, change: Change)
    requires Partition(m, whole) && |m| >= 2
    ensures Partition(Updated(m, request, change), whole) <==> KeepsCover(m, request)
  {
    hide Updated, LookupKeys;
    if !request.Nonempty() {
      EmptyRequestFinds(m, request);
      if LookupKeys(m, request) != [] {
        EmptyPartBreaks(m, whole, request, change);
      } else {
        NothingFoundNothingChanged(m, request, change);
      }
    } else {
      PartitionIffNothingLost(m, whole, request, change);
      hide Partition;
      assert Disjoint(m) by {
        DisjointOf(m, whole);
      }
      LossIffNotKept(m, request);
    }
  }

  lemma DisjointOf(m: SegmentMap, whole: Segment)
    requires Partition(m, whole)
    ensures Disjoint(m)
  {
  }

  lemma LossIffNotKept(m: SegmentMap, request: Segment)
    requires Disjoint(m) && |m| >= 2 && request.Nonempty()
    ensures KeepsCover(m, request) <==> forall k :: k in LookupKeys(m, request) ==> !Loses(KeyOf(m, k), request, k)
  {
    hide LookupKeys;
    if k :| k in LookupKeys(m, request) && Loses(KeyOf(m, k), request, k) {
      ReturnedOne(m, request, k);
      var t :| t in m && t >= request.start;
      assert k < request.start <= m[k].end < request.end && !(t <= k);
    }
    if !KeepsCover(m, request) {
      var k, t :| k in m && t in m && k < request.start <= m[k].end < request.end && k < t;
      EndsBefore(m, k, t);
      ReturnedIff(m, request, k);
      assert Loses(KeyOf(m, k), request, k);
    }
  }

  /** For a file with a sole key, which then is the whole file. */
  lemma SoleKeepsIff(m: SegmentMap, whole: Segment, request: Segment, change: Change)
    requires Partition(m, whole) && |m| == 1
    ensures Partition(Updated(m, request, change), whole) <==> KeepsCover(m, request)
  {
    PickFrom(m.Keys);
    var k :| k in m.Keys;
    OneElement(m.Keys, k);
    SoleKeyReturned(m, k, request);
    KeysAreNonempty(m);
    hide Updated, LookupKeys;
    if request.Nonempty() && Overlap(KeyOf(m, k), request) {
      PartitionIffNothingLost(m, whole, request, change);
    } else {
      EmptyPartBreaks(m, whole, request, change);
    }
  }

  lemma OneElement(s: set<int>, k: int)
    requires |s| == 1 && k in s
    ensures s == {k}
  {
    assert |s - {k}| == 0;
  }

  /** A read or a move keeps the cover exact exactly under the condition. */
  lemma UpdateKeepsPartitionIff(m: SegmentMap, whole: Segment, request: Segment, change: Change)
    requires Partition(m, whole)
    ensures Partition(Updated(m, request, change), whole) <==> KeepsCover(m, request)
  {
    if |m| == 0 {
      NothingFoundNothingChanged(m, request, change);
    } else if |m| == 1 {
      SoleKeepsIff(m, whole, request, change);
    } else {
      ManyKeepIff(m, whole, request, change);
    }
  }

  /** Which requests find nothing: among several keys those that start behind the start of the last one,
      that end before the file, or that lie within a key at neither of its ends. */
  lemma FindsNothingIff(m: SegmentMap, whole: Segment, request: Segment)
    requires Partition(m, whole) && m != map[] && request.Nonempty()
    ensures Lookup(m, request) == [] <==>
            |m| >= 2 && (request.end < whole.start || (forall t :: t in m ==> t < request.start)
                         || exists k :: k in m && k < request.start && request.end < m[k].end)
  {
    if |m| == 1 {
      PickFrom(m.Keys);
      var k :| k in m.Keys;
      OneElement(m.Keys, k);
      SoleKeyReturned(m, k, request);
    } else {
      assert |m| >= 2 by {
        PickFrom(m.Keys);
      }
      FindsNothingAmongMany(m, whole, request);
    }
  }

  lemma FindsNothingAmongMany(m: SegmentMap, whole: Segment, request: Segment)
    requires Partition(m, whole) && |m| >= 2 && request.Nonempty()
    ensures LookupKeys(m, request) == [] <==>
            request.end < whole.start || (forall t :: t in m ==> t < request.start)
            || exists k :: k in m && k < request.start && request.end < m[k].end
  {
    KeysAreNonempty(m);
    hide LookupKeys;
    var found := LookupKeys(m, request);
    if found != [] {
      ReturnedOne(m, request, found[0]);
      var s := found[0];
      assert HasByte(m, s) by {
        assert KeyOf(m, s).Covers(s);
      }
      if k :| k in m && k < request.start && request.end < m[k].end {
        if s < request.start {
          assert k != s;
          if k < s { EndsBefore(m, k, s); } else { EndsBefore(m, s, k); }
        } else {
          EndsBefore(m, k, s);
        }
      }
    } else if whole.start <= request.end {
      if t :| t in m && t >= request.start {
        NothingMeansInside(m, whole, request, t);
      }
    }
  }

  /** If no key starts in the request and none ends in it, some key goes on on both sides. */
  lemma NothingMeansInside(m: SegmentMap, whole: Segment, request: Segment, t: int)
    requires Partition(m, whole) && |m| >= 2 && request.Nonempty() && LookupKeys(m, request) == []
    requires whole.start <= request.end && t in m && t >= request.start
    ensures exists k :: k in m && k < request.start && request.end < m[k].end
  {
    DisjointOf(m, whole);
    hide LookupKeys, Partition, Disjoint, HasByte;
    NotReturned(m, request, t);
    EndIsCovered(m, whole, request, t);
    var k := KeyAt(m, request.end);
    NotReturned(m, request, k);
    GoesOnBothSides(m, request, t, k);
    assert k in m && k < request.start && request.end < m[k].end;
  }

  lemma EndIsCovered(m: SegmentMap, whole: Segment, request: Segment, t: int)
    requires Partition(m, whole) && t in m && t >= request.start && !IsReturned(m, request, t)
    requires whole.start <= request.end
    ensures HasByte(m, request.end)
  {
    KeysAreNonempty(m);
    assert HasByte(m, t) by {
      assert KeyOf(m, t).Covers(t);
    }
    assert whole.Covers(request.end);
  }

  lemma GoesOnBothSides(m: SegmentMap, request: Segment, t: int, k: int)
    requires t in m && t >= request.start && request.Nonempty() && k in m && KeyOf(m, k).Covers(request.end)
    requires !IsReturned(m, request, k)
    ensures k < request.start && request.end < m[k].end
  {
  }

  lemma NotReturned(m: SegmentMap, request: Segment, k: int)
    requires Disjoint(m) && |m| >= 2 && request.Nonempty() && LookupKeys(m, request) == []
    ensures !IsReturned(m, request, k)
  {
    ReturnedIff(m, request, k);
    hide LookupKeys;
  }
}
