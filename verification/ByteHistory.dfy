/** What a file's interval map holds for every byte, told from the requests alone: where they have cut the
    file, which of them applied to the byte, and what these did. This is possible as long as no request
    loses bytes, and which ones do is told from the cuts as well. */
module ByteHistory {

  import opened Segments
  import opened IntervalMap
  import opened SegmentUpdates

  /** A change that was asked for. */
  datatype Touch = Touch(request: Segment, change: Change)

  /** No key starts behind b up to e. */
  ghost predicate Uncut(cuts: set<int>, b: int, e: int) {
    forall c :: c in cuts ==> !(b < c <= e)
  }

  /** The requests that lose no bytes of a file with these cuts. On an uncut file these are the requests of
      its bytes that start before it, end in it, or both. On a cut one they are those that start before it
      or at a cut, and those without a cut behind their start; requests of no bytes must not start at a cut. */
  ghost predicate IsSafe(cuts: set<int>, whole: Segment, request: Segment) {
    if cuts == {whole.start} then
      request.Nonempty() && whole.start <= request.end
      && (request.start <= whole.start || request.end <= whole.end)
    else if request.Nonempty() then
      request.start <= whole.start || request.start in cuts || Uncut(cuts, request.start, request.end)
    else request.start !in cuts
  }

  /** Safe requests apply to all of their bytes in the file, or to none. */
  ghost predicate Applies(cuts: set<int>, whole: Segment, request: Segment) {
    cuts == {whole.start}
    || (request.Nonempty()
        && (request.start <= whole.start || request.start in cuts || request.end + 1 in cuts))
  }

  /** A safe request that applies cuts at its start and behind its end. */
  ghost function CutBy(cuts: set<int>, whole: Segment, request: Segment): set<int> {
    if !Applies(cuts, whole, request) then cuts else
      cuts + (if whole.start < request.start then {request.start} else {})
      + (if whole.start <= request.end < whole.end then {request.end + 1} else {})
  }

  ghost function CutsOf(whole: Segment, history: seq<Touch>): set<int> {
    if history == [] then {whole.start} else
      CutBy(CutsOf(whole, history[..|history| - 1]), whole, history[|history| - 1].request)
  }

  /** The last cut at or before b, and the last byte before the next cut. */
  ghost function LastCut(cuts: set<int>, low: int, b: int): int
    decreases b - low
  {
    if b in cuts || b <= low then b else LastCut(cuts, low, b - 1)
  }

  ghost function LastUncut(cuts: set<int>, high: int, b: int): int
    decreases high - b
  {
    if b + 1 in cuts || b >= high then b else LastUncut(cuts, high, b + 1)
  }

  /** The bytes around b that no cut parts. */
  ghost function SpanOf(cuts: set<int>, whole: Segment, b: int): Segment {
    Segment(LastCut(cuts, whole.start, b), LastUncut(cuts, whole.end, b))
  }

  ghost predicate Reaches(cuts: set<int>, whole: Segment, request: Segment, b: int) {
    request.Covers(b) && Applies(cuts, whole, request)
  }

  /** The score of a byte: every read that reached it has added to it. */
  ghost function ScoreOf(whole: Segment, history: seq<Touch>, b: int): SegmentScore {
    if history == [] then SegmentScore(0, 0.0) else
      var init, last := history[..|history| - 1], history[|history| - 1];
      var before := ScoreOf(whole, init, b);
      if Reaches(CutsOf(whole, init), whole, last.request, b) then NewScore(last.change, before) else before
  }

  /** Where a byte is: at the destination of the last move that reached it, at the offsets of the
      bytes it was moved with; before any move, in the file itself. */
  ghost function FileOf(whole: Segment, file: PosixFile, history: seq<Touch>, b: int): PosixFile {
    if history == [] then file else
      var init, last := history[..|history| - 1], history[|history| - 1];
      var cuts, before := CutsOf(whole, init), FileOf(whole, file, init, b);
      if Reaches(cuts, whole, last.request, b)
      then NewFile(last.change, last.request, last.request.Intersect(SpanOf(cuts, whole, b)), before)
      else before
  }

  /** The map covers the file exactly, is cut where the requests have cut it, and holds for every byte
      what they have done to it. */
  ghost predicate Tracks(m: SegmentMap, whole: Segment, file: PosixFile, history: seq<Touch>) {
    && Partition(m, whole)
    && m.Keys == CutsOf(whole, history)
    && forall b :: whole.Covers(b) ==> Holds(m, whole, file, history, b)
  }

  ghost predicate Holds(m: SegmentMap, whole: Segment, file: PosixFile, history: seq<Touch>, b: int) {
    && HasByte(m, b)
    && ScoreAt(m, b) == ScoreOf(whole, history, b)
    && FileAt(m, b) == FileOf(whole, file, history, b)
  }

  /** A fresh map holds one key, the whole segment. */
  lemma FreshTracks(whole: Segment, file: PosixFile)
    requires whole.Nonempty()
    ensures Tracks(Put(map[], whole, file, SegmentScore(0, 0.0)), whole, file, [])
  {
    var m := Put(map[], whole, file, SegmentScore(0, 0.0));
    forall b
      ensures whole.Covers(b) <==> HasByte(m, b)
      ensures whole.Covers(b) ==> Holds(m, whole, file, [], b)
    {
      if whole.Covers(b) {
        assert whole.start in m && KeyOf(m, whole.start).Covers(b);
      }
    }
  }

  // ----- keys and cuts

  /** The key of a byte reaches from the last cut at or before it to the byte before the next one. */
  lemma KeySpans(m: SegmentMap, whole: Segment, b: int)
    requires Partition(m, whole) && whole.Covers(b)
    ensures HasByte(m, b)
    ensures var a := KeyAt(m, b);
            && a <= b <= m[a].end <= whole.end && whole.start <= a
            && Uncut(m.Keys, a, m[a].end)
            && (m[a].end < whole.end ==> m[a].end + 1 in m)
  {
    assert HasByte(m, b);
    var a := KeyAt(m, b);
    assert HasByte(m, a) && HasByte(m, m[a].end) by {
      assert KeyOf(m, a).Covers(a) && KeyOf(m, a).Covers(m[a].end);
    }
    forall c | c in m.Keys
      ensures !(a < c <= m[a].end)
    {
      if a < c <= m[a].end {
        StartsAreApart(m, a, c);
      }
    }
    var next := m[a].end + 1;
    if next <= whole.end {
      assert HasByte(m, next);
      assert KeyOf(m, KeyAt(m, next)).Covers(next);
    }
  }

  lemma {:induction false} LastCutIs(cuts: set<int>, low: int, b: int, c: int)
    requires c in cuts && low <= c <= b && Uncut(cuts, c, b)
    ensures LastCut(cuts, low, b) == c
    decreases b - low
  {
    if b !in cuts {
      LastCutIs(cuts, low, b - 1, c);
    }
  }

  lemma {:induction false} LastUncutIs(cuts: set<int>, high: int, b: int, e: int)
    requires b <= e <= high && Uncut(cuts, b, e) && (e < high ==> e + 1 in cuts)
    ensures LastUncut(cuts, high, b) == e
    decreases high - b
  {
    if b < e {
      LastUncutIs(cuts, high, b + 1, e);
    }
  }

  lemma SpanIsKey(m: SegmentMap, whole: Segment, b: int)
    requires Partition(m, whole) && whole.Covers(b)
    ensures HasByte(m, b) && KeyOf(m, KeyAt(m, b)) == SpanOf(m.Keys, whole, b)
  {
    KeySpans(m, whole, b);
    var a := KeyAt(m, b);
    LastCutIs(m.Keys, whole.start, b, a);
    LastUncutIs(m.Keys, whole.end, b, m[a].end);
  }

  /** The first byte of the file is a cut, and a sole key is the whole file. */
  lemma StartIsCut(m: SegmentMap, whole: Segment)
    requires Partition(m, whole) && whole.Nonempty()
    ensures whole.start in m && |m| >= 1
    ensures |m| == 1 <==> m.Keys == {whole.start}
    ensures |m| == 1 ==> m[whole.start].end == whole.end
    ensures forall k :: k in m ==> whole.start <= k <= m[k].end <= whole.end
  {
    KeySpans(m, whole, whole.start);
    if |m| == 1 {
      OneElement(m.Keys, whole.start);
      assert HasByte(m, whole.end);
    }
    forall k | k in m
      ensures whole.start <= k <= m[k].end <= whole.end
    {
      assert KeyOf(m, k).Covers(k);
      KeyAtIs(m, k, k);
      KeySpans(m, whole, k);
    }
    if m[whole.start].end < whole.end {
      KeySpans(m, whole, whole.start);
    }
  }

  // ----- safe requests

  lemma ManySafeIff(m: SegmentMap, whole: Segment, request: Segment)
    requires Partition(m, whole) && whole.Nonempty() && |m| >= 2 && request.Nonempty()
    ensures KeepsCover(m, request) <==> IsSafe(m.Keys, whole, request)
  {
    StartIsCut(m, whole);
    DisjointOf(m, whole);
    var start, end := request.start, request.end;
    if whole.start < start && start !in m {
      if start <= whole.end {
        KeySpans(m, whole, start);
        var k := KeyAt(m, start);
        if !Uncut(m.Keys, start, end) {
          var c :| c in m.Keys && start < c <= end;
          assert m[k].end < c && !(c <= k);
          assert k in m && c in m && k < start <= m[k].end < end;
        } else if !KeepsCover(m, request) {
          var j, t :| j in m && t in m && j < start <= m[j].end < end && j < t;
          KeyAtIs(m, j, start);
          EndsBefore(m, j, t);
          assert false;
        }
      }
    } else if !KeepsCover(m, request) {
      var j, t :| j in m && t in m && j < start <= m[j].end < end && j < t;
      if start in m {
        StartsAreApart(m, j, start);
      }
      assert false;
    }
  }

  lemma SafeIffKeeps(m: SegmentMap, whole: Segment, request: Segment)
    requires Partition(m, whole) && whole.Nonempty()
    ensures KeepsCover(m, request) <==> IsSafe(m.Keys, whole, request)
  {
    StartIsCut(m, whole);
    if |m| >= 2 && request.Nonempty() {
      ManySafeIff(m, whole, request);
    }
  }

  /** What a safe request returns, told from the cuts. */
  lemma HitIffReached(m: SegmentMap, whole: Segment, request: Segment, b: int)
    requires Partition(m, whole) && whole.Covers(b) && IsSafe(m.Keys, whole, request)
    ensures HasByte(m, b)
    ensures Hit(m, request, b) <==> Reaches(m.Keys, whole, request, b)
  {
    StartIsCut(m, whole);
    DisjointOf(m, whole);
    KeySpans(m, whole, b);
    hide LookupKeys, Partition, Disjoint;
    if request.Covers(b) {
      if |m| == 1 {
        SoleKeyReturned(m, whole.start, request);
      } else {
        var k := KeyAt(m, b);
        ReturnedIff(m, request, k);
        if IsReturned(m, request, k) {
          ReturnedApplies(m, whole, request, k);
        }
        if Applies(m.Keys, whole, request) {
          ApplyingReturns(m, whole, request, b);
        }
      }
    }
  }

  lemma ReturnedApplies(m: SegmentMap, whole: Segment, request: Segment, k: int)
    requires Partition(m, whole) && whole.Nonempty() && |m| >= 2 && IsSafe(m.Keys, whole, request)
    requires request.Nonempty() && IsReturned(m, request, k)
    ensures Applies(m.Keys, whole, request)
    ensures k < request.start ==> m[k].end == request.end
  {
    StartIsCut(m, whole);
    DisjointOf(m, whole);
    SafeIffKeeps(m, whole, request);
    if k < request.start {
      var t :| t in m && t >= request.start;
      EndsBefore(m, k, t);
      assert HasByte(m, k) by {
        assert KeyOf(m, k).Covers(k);
      }
      KeyAtIs(m, k, k);
      KeySpans(m, whole, k);
    }
  }

  lemma ApplyingReturns(m: SegmentMap, whole: Segment, request: Segment, b: int)
    requires Partition(m, whole) && whole.Covers(b) && |m| >= 2 && IsSafe(m.Keys, whole, request)
    requires request.Covers(b) && Applies(m.Keys, whole, request)
    ensures HasByte(m, b) && IsReturned(m, request, KeyAt(m, b))
  {
    StartIsCut(m, whole);
    KeySpans(m, whole, b);
    var k := KeyAt(m, b);
    if k < request.start {
      if request.start in m {
        assert false;
      }
      var e := m[k].end;
      assert request.end + 1 in m;
      assert e + 1 in m;
      assert request.start <= e <= request.end;
    }
  }

  // ----- the cuts after a request

  /** What the changed keys add to the keys of the map. */
  ghost function Added(m: SegmentMap, keys: seq<int>, request: Segment): set<int>
    requires forall k :: k in keys ==> k in m
  {
    (if exists k :: k in keys && k < request.start then {request.start} else {})
    + (if exists k :: k in keys && request.end < m[k].end then {request.end + 1} else {})
  }

  lemma ReplaceAdds(m: SegmentMap, a: int, request: Segment, file: PosixFile, score: SegmentScore)
    requires a in m && request.Nonempty() && Overlap(KeyOf(m, a), request) && !Loses(KeyOf(m, a), request, a)
    ensures Replace(m, ItemOf(m, a), request, file, score).Keys == m.Keys + Added(m, [a], request)
  {
    ReplaceShape(m, a, request, file, score);
    assert a in [a];
  }

  lemma {:induction false} ChangeAdds(m: SegmentMap, keys: seq<int>, request: Segment, change: Change)
    requires Disjoint(m) && request.Nonempty() && Changeable(m, keys, request)
    requires forall k :: k in keys ==> !Loses(KeyOf(m, k), request, k)
    ensures ApplyAll(m, ItemsAt(m, keys), request, change).Keys == m.Keys + Added(m, keys, request)
    decreases |keys|
  {
    if keys != [] {
      var a, rest := keys[0], keys[1..];
      var m1 := Apply(m, ItemOf(m, a), request, change);
      ReplaceAdds(m, a, request, NewFile(change, request, request.Intersect(KeyOf(m, a)), m[a].file),
                  NewScore(change, m[a].score));
      FirstKey(m, keys, request, change);
      hide Loses, Apply, Replace, Disjoint, Added, Overlap, ApplyAll;
      ChangeAdds(m1, rest, request, change);
      AddedJoin(m, m1, a, rest, request);
      assert keys == [a] + rest;
    }
  }

  lemma AddedJoin(m: SegmentMap, m1: SegmentMap, a: int, rest: seq<int>, request: Segment)
    requires a in m && forall k :: k in rest ==> k in m && k in m1 && m1[k] == m[k]
    ensures Added(m, [a] + rest, request) == Added(m, [a], request) + Added(m1, rest, request)
  {
    assert forall k :: k in [a] + rest <==> k == a || k in rest;
    assert forall k :: k in [a] <==> k == a;
  }

  lemma ReturnedWithin(m: SegmentMap, whole: Segment, request: Segment, k: int)
    requires Partition(m, whole) && whole.Nonempty() && |m| >= 2 && IsSafe(m.Keys, whole, request)
    requires request.Nonempty() && k in LookupKeys(m, request)
    ensures k in m && whole.start <= k <= m[k].end <= whole.end && Overlap(KeyOf(m, k), request)
    ensures Applies(m.Keys, whole, request)
  {
    StartIsCut(m, whole);
    DisjointOf(m, whole);
    ReturnedOverlap(m, request);
    ReturnedOne(m, request, k);
    ReturnedApplies(m, whole, request, k);
  }

  lemma ByteReturned(m: SegmentMap, whole: Segment, request: Segment, b: int)
    requires Partition(m, whole) && whole.Covers(b) && |m| >= 2 && IsSafe(m.Keys, whole, request)
    requires request.Covers(b) && Applies(m.Keys, whole, request)
    ensures HasByte(m, b) && KeyAt(m, b) in LookupKeys(m, request)
  {
    DisjointOf(m, whole);
    ApplyingReturns(m, whole, request, b);
    ReturnedIff(m, request, KeyAt(m, b));
  }

  /** If the request applies and starts in the file, its first byte is in it. */
  lemma StartInFile(m: SegmentMap, whole: Segment, request: Segment)
    requires Partition(m, whole) && whole.Nonempty() && request.Nonempty() && |m| >= 2
    requires Applies(m.Keys, whole, request) && whole.start < request.start && request.start !in m
    ensures whole.Covers(request.start)
  {
    StartIsCut(m, whole);
    assert request.end + 1 in m;
  }

  /** Some returned key starts before the request. */
  ghost predicate EntersKey(m: SegmentMap, request: Segment) {
    exists k :: k in LookupKeys(m, request) && k < request.start
  }

  /** Some returned key goes on behind the request. */
  ghost predicate LeavesKey(m: SegmentMap, request: Segment) {
    exists k :: k in LookupKeys(m, request) && request.end < m[k].end
  }

  lemma SoleEntersAndLeaves(m: SegmentMap, whole: Segment, request: Segment)
    requires Partition(m, whole) && whole.Nonempty() && |m| == 1
    ensures EntersKey(m, request) <==> whole.start < request.start
    ensures LeavesKey(m, request) <==> request.end < whole.end
    ensures Applies(m.Keys, whole, request)
  {
    StartIsCut(m, whole);
    SoleKeyReturned(m, whole.start, request);
    hide LookupKeys, Partition;
    assert whole.start in LookupKeys(m, request);
  }

  lemma EntersOnlyIf(m: SegmentMap, whole: Segment, request: Segment)
    requires Partition(m, whole) && whole.Nonempty() && |m| >= 2 && IsSafe(m.Keys, whole, request)
    requires request.Nonempty() && EntersKey(m, request)
    ensures Applies(m.Keys, whole, request) && whole.start < request.start
  {
    hide LookupKeys, Partition, IsSafe, Applies;
    var k :| k in LookupKeys(m, request) && k < request.start;
    ReturnedWithin(m, whole, request, k);
  }

  lemma EntersIf(m: SegmentMap, whole: Segment, request: Segment)
    requires Partition(m, whole) && whole.Nonempty() && |m| >= 2 && IsSafe(m.Keys, whole, request)
    requires request.Nonempty() && request.start !in m
    requires Applies(m.Keys, whole, request) && whole.start < request.start
    ensures EntersKey(m, request)
  {
    StartInFile(m, whole, request);
    ByteReturned(m, whole, request, request.start);
    IsEntered(m, request, KeyAt(m, request.start));
  }

  lemma IsEntered(m: SegmentMap, request: Segment, k: int)
    requires k in LookupKeys(m, request) && k <= request.start && request.start !in m
    ensures EntersKey(m, request)
  {
    hide LookupKeys;
  }

  lemma LeavesOnlyIf(m: SegmentMap, whole: Segment, request: Segment)
    requires Partition(m, whole) && whole.Nonempty() && |m| >= 2 && IsSafe(m.Keys, whole, request)
    requires request.Nonempty() && LeavesKey(m, request)
    ensures Applies(m.Keys, whole, request) && whole.start <= request.end < whole.end
  {
    hide LookupKeys, Partition, IsSafe, Applies;
    var k :| k in LookupKeys(m, request) && request.end < m[k].end;
    ReturnedWithin(m, whole, request, k);
  }

  lemma LeavesIf(m: SegmentMap, whole: Segment, request: Segment)
    requires Partition(m, whole) && whole.Nonempty() && |m| >= 2 && IsSafe(m.Keys, whole, request)
    requires request.Nonempty() && request.end + 1 !in m
    requires Applies(m.Keys, whole, request) && whole.start <= request.end < whole.end
    ensures LeavesKey(m, request)
  {
    hide LookupKeys, Partition, IsSafe, Applies;
    ByteReturned(m, whole, request, request.end);
    KeySpans(m, whole, request.end);
    var k := KeyAt(m, request.end);
    assert k in LookupKeys(m, request) && request.end < m[k].end;
  }

  /** The keys after a safe update are the cuts after its request. */
  lemma UpdateCuts(m: SegmentMap, whole: Segment, request: Segment, change: Change)
    requires Partition(m, whole) && whole.Nonempty() && IsSafe(m.Keys, whole, request)
    ensures Updated(m, request, change).Keys == CutBy(m.Keys, whole, request)
  {
    StartIsCut(m, whole);
    DisjointOf(m, whole);
    SafeIffKeeps(m, whole, request);
    hide LookupKeys, Partition, Disjoint;
    if request.Nonempty() {
      var keys := LookupKeys(m, request);
      SafeLosesNothing(m, whole, request);
      ChangeAdds(m, keys, request, change);
      AddedIsCut(m, whole, request);
    } else {
      EmptyRequestFinds(m, request);
      NothingFoundNothingChanged(m, request, change);
    }
  }

  /** The key at the start of a request matters only if no cut is there already. */
  lemma EntersIff(m: SegmentMap, whole: Segment, request: Segment)
    requires Partition(m, whole) && whole.Nonempty() && IsSafe(m.Keys, whole, request) && request.Nonempty()
    ensures EntersKey(m, request) ==> Applies(m.Keys, whole, request) && whole.start < request.start
    ensures Applies(m.Keys, whole, request) && whole.start < request.start && request.start !in m ==>
              EntersKey(m, request)
  {
    StartIsCut(m, whole);
    hide Partition, IsSafe, EntersKey, Applies;
    if |m| == 1 {
      SoleEntersAndLeaves(m, whole, request);
    } else {
      if EntersKey(m, request) {
        EntersOnlyIf(m, whole, request);
      }
      if Applies(m.Keys, whole, request) && whole.start < request.start && request.start !in m {
        EntersIf(m, whole, request);
      }
    }
  }

  lemma LeavesIff(m: SegmentMap, whole: Segment, request: Segment)
    requires Partition(m, whole) && whole.Nonempty() && IsSafe(m.Keys, whole, request) && request.Nonempty()
    ensures LeavesKey(m, request) ==> Applies(m.Keys, whole, request) && whole.start <= request.end < whole.end
    ensures Applies(m.Keys, whole, request) && whole.start <= request.end < whole.end && request.end + 1 !in m ==>
              LeavesKey(m, request)
  {
    StartIsCut(m, whole);
    if |m| == 1 {
      SoleEntersAndLeaves(m, whole, request);
    } else {
      hide Partition, IsSafe, LeavesKey, Applies;
      if LeavesKey(m, request) {
        LeavesOnlyIf(m, whole, request);
      }
      if Applies(m.Keys, whole, request) && whole.start <= request.end < whole.end && request.end + 1 !in m {
        LeavesIf(m, whole, request);
      }
    }
  }

  lemma AddedIsCut(m: SegmentMap, whole: Segment, request: Segment)
    requires Partition(m, whole) && whole.Nonempty() && IsSafe(m.Keys, whole, request) && request.Nonempty()
    ensures m.Keys + Added(m, LookupKeys(m, request), request) == CutBy(m.Keys, whole, request)
  {
    EntersIff(m, whole, request);
    LeavesIff(m, whole, request);
    CutsFromEnds(m, whole, request);
  }

  lemma CutsFromEnds(m: SegmentMap, whole: Segment, request: Segment)
    requires EntersKey(m, request) ==> Applies(m.Keys, whole, request) && whole.start < request.start
    requires Applies(m.Keys, whole, request) && whole.start < request.start && request.start !in m ==>
               EntersKey(m, request)
    requires LeavesKey(m, request) ==> Applies(m.Keys, whole, request) && whole.start <= request.end < whole.end
    requires Applies(m.Keys, whole, request) && whole.start <= request.end < whole.end && request.end + 1 !in m ==>
               LeavesKey(m, request)
    ensures m.Keys + Added(m, LookupKeys(m, request), request) == CutBy(m.Keys, whole, request)
  {
    AddedSplits(m, request);
    hide LookupKeys, EntersKey, LeavesKey, Applies, Added;
    SameCuts(m.Keys, EntersKey(m, request), LeavesKey(m, request), Applies(m.Keys, whole, request), whole, request);
    SetsAssociate(m.Keys, if EntersKey(m, request) then {request.start} else {},
                  if LeavesKey(m, request) then {request.end + 1} else {});
  }

  lemma SetsAssociate(a: set<int>, b: set<int>, c: set<int>)
    ensures a + (b + c) == a + b + c
  {
  }

  lemma SameCuts(keys: set<int>, enters: bool, leaves: bool, applies: bool, whole: Segment, request: Segment)
    requires enters ==> applies && whole.start < request.start
    requires applies && whole.start < request.start && request.start !in keys ==> enters
    requires leaves ==> applies && whole.start <= request.end < whole.end
    requires applies && whole.start <= request.end < whole.end && request.end + 1 !in keys ==> leaves
    ensures keys + (if enters then {request.start} else {}) + (if leaves then {request.end + 1} else {})
         == if !applies then keys else
              keys + (if whole.start < request.start then {request.start} else {})
              + (if whole.start <= request.end < whole.end then {request.end + 1} else {})
  {
  }

  lemma AddedSplits(m: SegmentMap, request: Segment)
    ensures Added(m, LookupKeys(m, request), request)
         == (if EntersKey(m, request) then {request.start} else {})
            + (if LeavesKey(m, request) then {request.end + 1} else {})
  {
    hide LookupKeys;
  }

  lemma SafeLosesNothing(m: SegmentMap, whole: Segment, request: Segment)
    requires Partition(m, whole) && whole.Nonempty() && IsSafe(m.Keys, whole, request) && request.Nonempty()
    ensures Changeable(m, LookupKeys(m, request), request)
    ensures forall k :: k in LookupKeys(m, request) ==> !Loses(KeyOf(m, k), request, k)
  {
    StartIsCut(m, whole);
    DisjointOf(m, whole);
    SafeIffKeeps(m, whole, request);
    if |m| == 1 {
      SoleKeyReturned(m, whole.start, request);
    } else {
      ReturnedOverlap(m, request);
      LossIffNotKept(m, request);
    }
  }

  /** One more safe change: the map goes on holding what the requests have done. */
  lemma TouchTracks(m: SegmentMap, whole: Segment, file: PosixFile, history: seq<Touch>, touch: Touch)
    requires whole.Nonempty() && Tracks(m, whole, file, history)
    requires IsSafe(CutsOf(whole, history), whole, touch.request)
    ensures Tracks(Updated(m, touch.request, touch.change), whole, file, history + [touch])
  {
    var request, change := touch.request, touch.change;
    var m', more := Updated(m, request, change), history + [touch];
    assert more[..|history|] == history;
    UpdateCuts(m, whole, request, change);
    SafeIffKeeps(m, whole, request);
    UpdateKeepsPartitionIff(m, whole, request, change);
    forall b | whole.Covers(b)
      ensures Holds(m', whole, file, more, b)
    {
      TouchHolds(m, whole, file, history, touch, b);
    }
  }

  lemma TouchHolds(m: SegmentMap, whole: Segment, file: PosixFile, history: seq<Touch>, touch: Touch, b: int)
    requires Tracks(m, whole, file, history) && IsSafe(CutsOf(whole, history), whole, touch.request)
    requires Partition(Updated(m, touch.request, touch.change), whole) && whole.Covers(b)
    ensures Holds(Updated(m, touch.request, touch.change), whole, file, history + [touch], b)
  {
    var request, change := touch.request, touch.change;
    var m', more := Updated(m, request, change), history + [touch];
    assert more[..|history|] == history;
    assert Holds(m, whole, file, history, b);
    assert HasByte(m', b);
    HitIffReached(m, whole, request, b);
    SpanIsKey(m, whole, b);
    if request.Nonempty() {
      SafeLosesNothing(m, whole, request);
      ChangeKeys(m, LookupKeys(m, request), request, change);
      hide Partition, LookupKeys, CutsOf, NewFile, NewScore, Reaches, SpanOf;
      assert Effect(m, LookupKeys(m, request), request, change, m', b);
    } else {
      StartIsCut(m, whole);
      SafeIffKeeps(m, whole, request);
      EmptyRequestFinds(m, request);
      NothingFoundNothingChanged(m, request, change);
    }
  }

  // ----- a file's map, told from its requests

  /** The map of a file that starts as one key, after some requests. */
  function MapOf(whole: Segment, file: PosixFile, history: seq<Touch>): SegmentMap {
    if history == [] then Put(map[], whole, file, SegmentScore(0, 0.0)) else
      var last := history[|history| - 1];
      Updated(MapOf(whole, file, history[..|history| - 1]), last.request, last.change)
  }

  lemma MapAfterOneMore(whole: Segment, file: PosixFile, history: seq<Touch>, touch: Touch)
    ensures MapOf(whole, file, history + [touch])
         == Updated(MapOf(whole, file, history), touch.request, touch.change)
  {
    hide Updated;
    assert (history + [touch])[..|history|] == history;
  }

  /** Every request is safe, given the cuts of the requests before it. */
  ghost predicate AllSafe(whole: Segment, history: seq<Touch>) {
    history == []
    || (AllSafe(whole, history[..|history| - 1])
        && IsSafe(CutsOf(whole, history[..|history| - 1]), whole, history[|history| - 1].request))
  }

  lemma FreshMapTracks(whole: Segment, file: PosixFile)
    requires whole.Nonempty()
    ensures Tracks(MapOf(whole, file, []), whole, file, [])
  {
    FreshTracks(whole, file);
  }

  lemma SafeSplits(whole: Segment, history: seq<Touch>)
    requires history != []
    ensures var init, last := history[..|history| - 1], history[|history| - 1];
            AllSafe(whole, history) <==> AllSafe(whole, init) && IsSafe(CutsOf(whole, init), whole, last.request)
  {
    hide IsSafe, CutsOf;
  }

  /** After safe requests the map holds for every byte exactly what they have done to it. */
  lemma {:induction false} SafeRequestsTrack(whole: Segment, file: PosixFile, history: seq<Touch>)
    requires whole.Nonempty() && AllSafe(whole, history)
    ensures Tracks(MapOf(whole, file, history), whole, file, history)
    decreases |history|
  {
    hide *;
    if history == [] {
      FreshMapTracks(whole, file);
    } else {
      var init, last := history[..|history| - 1], history[|history| - 1];
      SafeSplits(whole, history);
      SafeRequestsTrack(whole, file, init);
      TouchTracks(MapOf(whole, file, init), whole, file, init, last);
      MapAfterOneMore(whole, file, init, last);
      assert init + [last] == history;
    }
  }

  /** After safe requests one more leaves the cover exact exactly if it is safe as well. */
  lemma OneMoreSafeIff(whole: Segment, file: PosixFile, history: seq<Touch>)
    requires whole.Nonempty() && history != [] && AllSafe(whole, history[..|history| - 1])
    ensures Partition(MapOf(whole, file, history), whole) <==> AllSafe(whole, history)
  {
    var init, last := history[..|history| - 1], history[|history| - 1];
    SafeRequestsTrack(whole, file, init);
    var m := MapOf(whole, file, init);
    SafeIffKeeps(m, whole, last.request);
    UpdateKeepsPartitionIff(m, whole, last.request, last.change);
  }

  /** Requests of bytes from the start of the file on, or from before it, are safe in any number, even past its
      end. */
  lemma {:induction false} FromStartIsSafe(whole: Segment, history: seq<Touch>)
    requires forall i :: 0 <= i < |history| ==> history[i].request.start <= whole.start <= history[i].request.end
    ensures AllSafe(whole, history)
    decreases |history|
  {
    if history != [] {
      hide CutsOf;
      FromStartIsSafe(whole, history[..|history| - 1]);
    }
  }

  // ----- scores and places after safe requests, in numbers

  /** The recencies of the reads that have reached byte b, in order. */
  ghost function ReadsOfByte(whole: Segment, history: seq<Touch>, b: int): seq<real> {
    if history == [] then [] else
      var init, last := history[..|history| - 1], history[|history| - 1];
      ReadsOfByte(whole, init, b)
      + if last.change.Read? && Reaches(CutsOf(whole, init), whole, last.request, b) then [last.change.decay] else []
  }

  ghost function Sum(s: seq<real>): real {
    if s == [] then 0.0 else Sum(s[..|s| - 1]) + s[|s| - 1]
  }

  lemma SumOneMore(s: seq<real>, x: real)
    ensures Sum(s + [x]) == Sum(s) + x
  {
    assert (s + [x])[..|s|] == s;
  }

  lemma {:induction false} ScoreCounts(whole: Segment, history: seq<Touch>, b: int)
    ensures ScoreOf(whole, history, b).frequency == |ReadsOfByte(whole, history, b)|
    ensures ScoreOf(whole, history, b).lrf == Sum(ReadsOfByte(whole, history, b))
    decreases |history|
  {
    if history != [] {
      hide CutsOf, Reaches;
      var init, last := history[..|history| - 1], history[|history| - 1];
      ScoreCounts(whole, init, b);
      var before := ReadsOfByte(whole, init, b);
      if last.change.Read? {
        SumOneMore(before, last.change.decay);
      }
      assert before + [] == before;
    }
  }

  /** After safe requests the frequency of a byte is the number of the reads that have reached it, and its recency
      score is the sum of theirs; moves have added nothing to either. */
  lemma ScoresCountReads(whole: Segment, file: PosixFile, history: seq<Touch>, b: int)
    requires whole.Covers(b) && AllSafe(whole, history)
    ensures var m := MapOf(whole, file, history);
            HasByte(m, b)
            && ScoreAt(m, b).frequency == |ReadsOfByte(whole, history, b)|
            && ScoreAt(m, b).lrf == Sum(ReadsOfByte(whole, history, b))
  {
    hide MapOf, AllSafe, CutsOf, Partition, ScoreOf, FileOf, ReadsOfByte, HasByte;
    SafeRequestsTrack(whole, file, history);
    assert Holds(MapOf(whole, file, history), whole, file, history, b);
    ScoreCounts(whole, history, b);
  }

  /** Reads of positive recency never lower the score of a byte, and raise it if they reach it. */
  lemma ReadRaisesScore(whole: Segment, file: PosixFile, history: seq<Touch>, b: int)
    requires whole.Covers(b) && AllSafe(whole, history) && history != []
    requires var last := history[|history| - 1].change; last.Read? && last.decay > 0.0
    ensures var init, last := history[..|history| - 1], history[|history| - 1];
            var m, m' := MapOf(whole, file, init), MapOf(whole, file, history);
            HasByte(m, b) && HasByte(m', b)
            && ScoreAt(m', b).lrf >= ScoreAt(m, b).lrf
            && (ScoreAt(m', b).lrf > ScoreAt(m, b).lrf <==> Reaches(CutsOf(whole, init), whole, last.request, b))
  {
    var init, last := history[..|history| - 1], history[|history| - 1];
    SafeSplits(whole, history);
    hide MapOf, AllSafe, CutsOf, HasByte, Reaches;
    ScoresCountReads(whole, file, init, b);
    ScoresCountReads(whole, file, history, b);
    var before := ReadsOfByte(whole, init, b);
    SumOneMore(before, last.change.decay);
    assert before + [] == before;
  }

  /** The i-th request has moved byte b, and no later one has. */
  ghost predicate LastMoves(whole: Segment, history: seq<Touch>, i: nat, b: int) {
    i < |history| && Moves(whole, history, i, b) && forall j :: i < j < |history| ==> !Moves(whole, history, j, b)
  }

  ghost predicate Moves(whole: Segment, history: seq<Touch>, i: nat, b: int)
    requires i < |history|
  {
    history[i].change.Move? && Reaches(CutsOf(whole, history[..i]), whole, history[i].request, b)
  }

  /** A byte stays where it is until it is moved again. */
  lemma {:induction false} StaysPlaced(whole: Segment, file: PosixFile, history: seq<Touch>, i: nat, b: int)
    requires i <= |history| && forall j :: i <= j < |history| ==> !Moves(whole, history, j, b)
    ensures FileOf(whole, file, history, b) == FileOf(whole, file, history[..i], b)
    decreases |history|
  {
    if i < |history| {
      hide CutsOf, Reaches, SpanOf;
      var init := history[..|history| - 1];
      assert init[..i] == history[..i];
      forall j | i <= j < |init|
        ensures !Moves(whole, init, j, b)
      {
        assert init[..j] == history[..j] && !Moves(whole, history, j, b);
      }
      assert !Moves(whole, history, |init|, b);
      StaysPlaced(whole, file, init, i, b);
    } else {
      assert history[..i] == history;
    }
  }

  /** One move that reaches b, on the map before it. */
  lemma MovePlaces(m: SegmentMap, whole: Segment, request: Segment, destination: PosixFile, b: int)
    requires Partition(m, whole) && whole.Covers(b) && IsSafe(m.Keys, whole, request)
    requires Reaches(m.Keys, whole, request, b)
    ensures var m' := Updated(m, request, Move(destination));
            && Partition(m', whole) && HasByte(m', b)
            && IsAt(FileAt(m', b), destination, b - request.start, SpanOf(m'.Keys, whole, b), b)
  {
    var m' := Updated(m, request, Move(destination));
    StartIsCut(m, whole);
    DisjointOf(m, whole);
    SafeIffKeeps(m, whole, request);
    UpdateKeepsPartitionIff(m, whole, request, Move(destination));
    HitIffReached(m, whole, request, b);
    assert HasByte(m', b);
    hide Partition, Disjoint, HasByte, Updated, LookupKeys;
    UpdateRefines(m, request, Move(destination));
    SpanIsKey(m', whole, b);
    assert Accounted(m, request, Move(destination), m', b);
  }

  /** After safe requests a byte that has been moved is on the destination of its last move, as many bytes from the
      start as it was from the start of what was moved then; the stored segment is, in these offsets, the piece that
      the move left uncut around it. Its distance from the start of its key tells the same offset if and only if
      no later request has cut in between. */
  lemma MovedBytesAreAt(whole: Segment, file: PosixFile, history: seq<Touch>, i: nat, b: int)
    requires whole.Covers(b) && AllSafe(whole, history) && LastMoves(whole, history, i, b)
    ensures var m, request := MapOf(whole, file, history), history[i].request;
            var piece := SpanOf(CutsOf(whole, history[..i + 1]), whole, b);
            && HasByte(m, b)
            && IsAt(FileAt(m, b), history[i].change.destination, b - request.start, piece, b)
            && (FileAt(m, b).segment.start + (b - KeyAt(m, b)) == b - request.start <==> KeyAt(m, b) == piece.start)
  {
    var touch, init := history[i], history[..i];
    var upTo := history[..i + 1];
    assert upTo == init + [touch];
    SafeSoFar(whole, history, i);
    SafeSoFar(whole, history, i + 1);
    hide *;
    SafeRequestsTrack(whole, file, init);
    SafeRequestsTrack(whole, file, upTo);
    SafeRequestsTrack(whole, file, history);
    MapAfterOneMore(whole, file, init, touch);
    MovedAt(whole, file, history, i, b);
    StayedAt(whole, file, history, i, b);
  }

  lemma MovedAt(whole: Segment, file: PosixFile, history: seq<Touch>, i: nat, b: int)
    requires whole.Covers(b) && i < |history| && Moves(whole, history, i, b)
    requires Tracks(MapOf(whole, file, history[..i]), whole, file, history[..i])
    requires Tracks(MapOf(whole, file, history[..i + 1]), whole, file, history[..i + 1])
    requires MapOf(whole, file, history[..i + 1])
          == Updated(MapOf(whole, file, history[..i]), history[i].request, history[i].change)
    requires IsSafe(CutsOf(whole, history[..i]), whole, history[i].request)
    ensures IsAt(FileOf(whole, file, history[..i + 1], b), history[i].change.destination, b - history[i].request.start,
                 SpanOf(CutsOf(whole, history[..i + 1]), whole, b), b)
  {
    hide MapOf, CutsOf, FileOf, ScoreOf, Partition, Updated, Reaches, IsSafe, SpanOf, HasByte;
    var m := MapOf(whole, file, history[..i]);
    MovePlaces(m, whole, history[i].request, history[i].change.destination, b);
    assert Holds(MapOf(whole, file, history[..i + 1]), whole, file, history[..i + 1], b);
  }

  lemma StayedAt(whole: Segment, file: PosixFile, history: seq<Touch>, i: nat, b: int)
    requires whole.Covers(b) && LastMoves(whole, history, i, b)
    requires Tracks(MapOf(whole, file, history), whole, file, history)
    ensures HasByte(MapOf(whole, file, history), b)
    ensures FileAt(MapOf(whole, file, history), b) == FileOf(whole, file, history[..i + 1], b)
  {
    hide MapOf, CutsOf, FileOf, ScoreOf, Partition, HasByte, Moves;
    StaysPlaced(whole, file, history, i + 1, b);
    assert Holds(MapOf(whole, file, history), whole, file, history, b);
  }

  lemma {:induction false} SafeSoFar(whole: Segment, history: seq<Touch>, i: nat)
    requires AllSafe(whole, history) && i <= |history|
    ensures AllSafe(whole, history[..i])
    ensures i < |history| ==> IsSafe(CutsOf(whole, history[..i]), whole, history[i].request)
    decreases |history|
  {
    hide IsSafe, CutsOf;
    if i == |history| {
      assert history[..i] == history;
    } else if i < |history| - 1 {
      var init := history[..|history| - 1];
      SafeSoFar(whole, init, i);
      assert init[..i] == history[..i] && init[i] == history[i];
    }
  }

  /** A byte that no request has moved is in the file itself. */
  lemma UnmovedBytesStay(whole: Segment, file: PosixFile, history: seq<Touch>, b: int)
    requires whole.Covers(b) && AllSafe(whole, history)
    requires forall j :: 0 <= j < |history| ==> !Moves(whole, history, j, b)
    ensures HasByte(MapOf(whole, file, history), b) && FileAt(MapOf(whole, file, history), b) == file
  {
    hide MapOf, CutsOf, ScoreOf, Partition, HasByte, Moves, AllSafe;
    SafeRequestsTrack(whole, file, history);
    StaysPlaced(whole, file, history, 0, b);
    assert history[..0] == [];
    assert Holds(MapOf(whole, file, history), whole, file, history, b);
  }

  /** Byte b is where its last move has put it, or in the file if none has moved it. */
  ghost predicate IsPlaced(m: SegmentMap, whole: Segment, file: PosixFile, history: seq<Touch>, b: int)
    requires HasByte(m, b)
  {
    && (forall i: nat :: LastMoves(whole, history, i, b) ==>
          IsAt(FileAt(m, b), history[i].change.destination, b - history[i].request.start,
               SpanOf(CutsOf(whole, history[..i + 1]), whole, b), b))
    && ((forall j :: 0 <= j < |history| ==> !Moves(whole, history, j, b)) ==> FileAt(m, b) == file)
  }

  lemma BytesArePlaced(whole: Segment, file: PosixFile, history: seq<Touch>, b: int)
    requires whole.Covers(b) && AllSafe(whole, history)
    ensures HasByte(MapOf(whole, file, history), b)
    ensures IsPlaced(MapOf(whole, file, history), whole, file, history, b)
  {
    hide MapOf, CutsOf, HasByte, LastMoves, Moves, AllSafe;
    ScoresCountReads(whole, file, history, b);
    forall i: nat | LastMoves(whole, history, i, b)
      ensures i < |history| && history[i].change.Move?
      ensures IsAt(FileAt(MapOf(whole, file, history), b), history[i].change.destination,
                   b - history[i].request.start, SpanOf(CutsOf(whole, history[..i + 1]), whole, b), b)
    {
      LastMoveIsMove(whole, history, i, b);
      MovedBytesAreAt(whole, file, history, i, b);
    }
    if forall j :: 0 <= j < |history| ==> !Moves(whole, history, j, b) {
      UnmovedBytesStay(whole, file, history, b);
    }
  }

  lemma LastMoveIsMove(whole: Segment, history: seq<Touch>, i: nat, b: int)
    requires LastMoves(whole, history, i, b)
    ensures i < |history| && history[i].change.Move?
  {
  }
}
