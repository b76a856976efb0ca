/** Placement decisions about the entries of a heat map: the key decides whether a layer has room, and
    the stored file is what is placed. Reads part the two. */
module HeatMapPlacement {

  import opened Segments
  import opened IntervalMap
  import opened ByteHistory
  import opened Auditor
  import opened AuditorRuns
  import opened BufferOwnership
  import opened ReadRuns
  import opened Placement
  import opened PlacementProperties

  // ----- files larger than their keys

  /** All keys start and end within the file; they may well be empty. */
  ghost predicate Within(m: SegmentMap, whole: Segment) {
    forall s :: s in m ==> whole.start <= s && m[s].end <= whole.end
  }

  predicate IsWithin(k: Segment, whole: Segment) {
    whole.start <= k.start && k.end <= whole.end
  }

  /** Requests are given by an offset and a size of zero at least. */
  predicate IsSized(request: Segment) {
    request.GetSize() >= 0
  }

  lemma {:induction false} PutAllWithin(m: SegmentMap, keys: seq<Segment>, file: PosixFile, score: SegmentScore,
                                        whole: Segment)
    requires Within(m, whole) && forall i :: 0 <= i < |keys| ==> IsWithin(keys[i], whole)
    ensures Within(PutAll(m, keys, file, score), whole)
    decreases |keys|
  {
    if keys != [] {
      PutAllWithin(Put(m, keys[0], file, score), keys[1..], file, score, whole);
    }
  }

  lemma ApplyWithin(m: SegmentMap, item: Item, request: Segment, change: Change, whole: Segment)
    requires Within(m, whole) && IsWithin(item.key, whole) && IsSized(request)
    ensures Within(Apply(m, item, request, change), whole)
  {
    PutAllWithin(Erase(m, item.key), item.key.Substract(request), item.file, item.score, whole);
  }

  lemma {:induction false} ApplyAllWithin(m: SegmentMap, items: seq<Item>, request: Segment, change: Change,
                                          whole: Segment)
    requires Within(m, whole) && IsSized(request) && forall i :: 0 <= i < |items| ==> IsWithin(items[i].key, whole)
    ensures Within(ApplyAll(m, items, request, change), whole)
    decreases |items|
  {
    if items != [] {
      hide Apply, Within;
      ApplyWithin(m, items[0], request, change, whole);
      ApplyAllWithin(Apply(m, items[0], request, change), items[1..], request, change, whole);
    }
  }

  lemma {:induction false} MapWithin(whole: Segment, file: PosixFile, history: seq<Touch>)
    requires forall i :: 0 <= i < |history| ==> IsSized(history[i].request)
    ensures Within(MapOf(whole, file, history), whole)
    decreases |history|
  {
    if history != [] {
      var init, last := history[..|history| - 1], history[|history| - 1];
      MapWithin(whole, file, init);
      hide LookupKeys;
      ApplyAllWithin(MapOf(whole, file, init), Lookup(MapOf(whole, file, init), last.request), last.request,
                     last.change, whole);
    }
  }

  /** Whatever is read of a file that is not moved, safely or not: every entry stores the whole file, and is
      smaller than that exactly if it is not the whole file's. */
  lemma FileOutgrowsKeyIff(whole: Segment, file: PosixFile, history: seq<Touch>, a: int)
    requires forall i :: 0 <= i < |history| ==> history[i].change.Read? && IsSized(history[i].request)
    requires file.segment == whole && a in MapOf(whole, file, history)
    ensures var m := MapOf(whole, file, history);
            && m[a].file == file
            && (file.GetSize() > KeyOf(m, a).GetSize() <==> KeyOf(m, a) != whole)
  {
    MapOwns(whole, file, history);
    MapWithin(whole, file, history);
    hide MapOf;
  }

  /** And while its reads are safe, the whole file's entry is one that is the only entry. */
  lemma OnlyEntryIff(whole: Segment, file: PosixFile, history: seq<Touch>, a: int)
    requires whole.Nonempty() && AllSafe(whole, history) && a in MapOf(whole, file, history)
    ensures var m := MapOf(whole, file, history); KeyOf(m, a) == whole <==> m.Keys == {a}
  {
    var m := MapOf(whole, file, history);
    SafeRequestsTrack(whole, file, history);
    hide MapOf;
    StartIsCut(m, whole);
    if KeyOf(m, a) == whole {
      forall c | c in m
        ensures c == a
      {
        StartsAreApart(m, a, c);
      }
      assert m.Keys == {a};
    }
  }

  /** Decisions about an entry keep within the room of every layer, whatever the layers, exactly if the
      stored file is no larger than its key. */
  lemma EntryKeepsRoomIff(m: SegmentMap, a: int, index: int, score: real, lastLayer: int, firstName: nat)
    requires a in m && KeyOf(m, a).Nonempty() && m[a].file.GetSize() >= 0
    ensures (forall chain :: Meets(chain, m[a].file.layer, lastLayer) ==>
               KeepsRoomOn(chain, KeyOf(m, a).GetSize(), m[a].file, index, score, lastLayer, firstName))
            <==> m[a].file.GetSize() <= KeyOf(m, a).GetSize()
  {
    EveryDecisionKeepsRoomIff(KeyOf(m, a).GetSize(), m[a].file, index, score, lastLayer, firstName);
  }

  /** Decisions about the entries of a file that has only been read keep within the room of every layer exactly
      for the entry of the whole file. */
  lemma ReadEntryKeepsRoomIff(whole: Segment, file: PosixFile, history: seq<Touch>, a: int, index: int,
                              score: real, lastLayer: int, firstName: nat)
    requires forall i :: 0 <= i < |history| ==> history[i].change.Read? && IsSized(history[i].request)
    requires file.segment == whole && whole.Nonempty()
    requires a in MapOf(whole, file, history) && KeyOf(MapOf(whole, file, history), a).Nonempty()
    ensures var k := KeyOf(MapOf(whole, file, history), a);
            (forall chain :: Meets(chain, file.layer, lastLayer) ==>
               KeepsRoomOn(chain, k.GetSize(), file, index, score, lastLayer, firstName))
            <==> k == whole
  {
    FileOutgrowsKeyIff(whole, file, history, a);
    hide MapOf;
    EntryKeepsRoomIff(MapOf(whole, file, history), a, index, score, lastLayer, firstName);
  }

  // ----- an example: the first 100 bytes of 1000 are read

  /** A run that opens the file and reads from it. */
  lemma PartialReadRun(filename: string, layer: int, decay: int -> real, n: nat)
    requires n > 0
    ensures var open := Event(filename, Segment(0, 999), FileOpen, layer, 0);
            var s := AuditorRuns.After(RunOfReads(open, [Segment(0, 99)]), decay, n);
            && filename in s.fileSegmentMap
            && var m := s.offsetMaps[s.fileSegmentMap[filename]];
            && 0 in m && KeyOf(m, 0) == Segment(0, 99) && m[0].file == PosixFile(filename, Segment(0, 999), layer)
  {
    var open := Event(filename, Segment(0, 999), FileOpen, layer, 0);
    hide AuditorRuns.After, RunOfReads, MapOf, ReadsOf, Tracks;
    MapAfterReads(open, [Segment(0, 99)], decay, n);
    FirstRead(OpenedFile(open), 999, 99, decay);
  }

  /** A layer with 100 bytes left is then sent all 1000. */
  lemma PartialReadOverfills(filename: string, score: real, firstName: nat)
    ensures var file := PosixFile(filename, Segment(0, 999), 2);
            var chain := [LayerView(1, 100.0, []), LayerView(2, 0.0, [])];
            var p := CarryOut(Plan(chain, 100, 1000, score, 2, 2), file, 0, score, true, firstName).placements;
            BytesTo(p, 1) == 1000 && !HasRoom(chain[0], score, 1000)
  {
    var file, chain := PosixFile(filename, Segment(0, 999), 2), [LayerView(1, 100.0, []), LayerView(2, 0.0, [])];
    var plan := Plan(chain, 100, 1000, score, 2, 2);
    assert plan == [Share(1, 1000)];
    PlanIsAffordable(chain, 100, 1000, score, 2, 2);
    LayersReceiveTheirShare(plan, file, 0, score, true, firstName, 1);
    assert plan[1..] == [];
    assert Given(plan, 1) == 1000;
  }

  // ----- other failures, at inputs that the code can receive

  /** 100 bytes from offset 100 on, placed from index 0 as `place` asks for: 200 other bytes are read,
      into a buffer of 100. */
  lemma PlacedFromZeroReadsOthers(filename: string, score: real, firstName: nat)
    ensures var file := PosixFile(filename, Segment(100, 199), 2);
            var chain := [LayerView(1, 1000.0, []), LayerView(2, 0.0, [])];
            var p := CarryOut(Plan(chain, 100, 100, score, 2, 2), file, 0, score, true, firstName).placements;
            && |p| == 1 && p[0].source.segment == Segment(0, 199) && p[0].destination.segment == Segment(0, 99)
            && !ReadsFromStart(p, file, score)
  {
    var file, chain := PosixFile(filename, Segment(100, 199), 2), [LayerView(1, 1000.0, []), LayerView(2, 0.0, [])];
    var plan := Plan(chain, 100, 100, score, 2, 2);
    assert plan == [Share(1, 100)] && plan[1..] == [];
    var out := CarryOut(plan, file, 0, score, true, firstName);
    var source, destination := SourceOf(Front(file, 100), 0), DestinationOf(Front(file, 100), 1);
    assert source.segment == Segment(0, 199) && destination.segment == Segment(0, 99);
    var placed := Placed(source, destination, score, true, firstName);
    assert Placed(Back(source, SEGMENT_SIZE), Back(destination, SEGMENT_SIZE), score, true, firstName + 1) == [];
    var others := CarryOut([], Back(file, 100), 200, score, true, firstName + 1);
    CarryOutSplits(plan, file, 0, score, true, firstName,
                   PlaceShare(Front(file, 100), 1, 0, score, true, firstName), others);
    assert out.placements == placed + [];
    PlanIsAffordable(chain, 100, 100, score, 2, 2);
    TilesIffAligned(plan, file, 0, score, true, firstName);
  }
}
