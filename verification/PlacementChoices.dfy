/** Who gets how much of a file, and where on the layer it goes, told from the layers of the chain themselves:
    their free space, and what on them scores less than the data. */
module PlacementChoices {

  import opened Segments
  import opened Placement
  import opened PlacementProperties

  ghost predicate AllWellKept(chain: seq<LayerView>) {
    forall k :: 0 <= k < |chain| ==> WellKept(chain[k].victims)
  }

  /** What arrives at a layer: a file of this size under a key of that one, or nothing, as the walk is over. */
  datatype Arrival = Arrives(size: int, key: int) | Over

  /** What goes on from a layer. */
  ghost function Onward(layer: LayerView, at: Arrival, score: real, fileLayer: int, lastLayer: int): Arrival {
    if at.Over? || StopsAt(layer, fileLayer, lastLayer) || layer.free >= at.key as real then Over
    else if PassedOver(layer, at.key, score) then at
    else
      var left := at.size - Offer(layer, score);
      if 0 < left < at.size then Arrives(left, left) else Over
  }

  /** What arrives at the i-th layer. */
  ghost function ArrivalAt(chain: seq<LayerView>, at: Arrival, score: real, fileLayer: int, lastLayer: int,
                           i: nat): Arrival
    requires i <= |chain|
  {
    if i == 0 then at
    else ArrivalAt(chain[1..], Onward(chain[0], at, score, fileLayer, lastLayer), score, fileLayer, lastLayer, i - 1)
  }

  /** What a layer keeps of what arrives: all of it if its free space is enough for the key, otherwise as much
      as it can offer. */
  ghost function Kept(layer: LayerView, at: Arrival, score: real, fileLayer: int, lastLayer: int): int {
    if at.Over? || StopsAt(layer, fileLayer, lastLayer) then 0
    else if layer.free >= at.key as real then at.size
    else if PassedOver(layer, at.key, score) || Offer(layer, score) <= 0 then 0
    else Min(Offer(layer, score), at.size)
  }

  lemma {:induction false} NothingArrives(chain: seq<LayerView>, score: real, fileLayer: int, lastLayer: int, i: nat)
    requires i <= |chain|
    ensures ArrivalAt(chain, Over, score, fileLayer, lastLayer, i) == Over
    decreases i
  {
    if i > 0 {
      NothingArrives(chain[1..], score, fileLayer, lastLayer, i - 1);
    }
  }

  /** The first layer's part of a plan, and what is planned for the others. */
  lemma PlanSplits(chain: seq<LayerView>, segmentSize: int, fileSize: int, score: real, fileLayer: int, lastLayer: int)
    requires chain != [] && WellKept(chain[0].victims) && fileSize > 0
    ensures var at := Arrives(fileSize, segmentSize);
            var next, kept := Onward(chain[0], at, score, fileLayer, lastLayer),
                              Kept(chain[0], at, score, fileLayer, lastLayer);
            && kept >= 0 && (next.Arrives? ==> next.size > 0)
            && Plan(chain, segmentSize, fileSize, score, fileLayer, lastLayer)
               == (if kept > 0 then [Share(chain[0].id, kept)] else [])
                  + (if next.Over? then [] else Plan(chain[1..], next.key, next.size, score, fileLayer, lastLayer))
  {
    DecisionIsDue(chain[0], segmentSize, fileSize, score, fileLayer, lastLayer);
    hide DecisionOf, PassedOver, WellKept, Offer, StopsAt;
  }

  /** Every layer is given exactly what it keeps of what arrives there. */
  lemma {:induction false} GivenIsKept(chain: seq<LayerView>, segmentSize: int, fileSize: int, score: real,
                                       fileLayer: int, lastLayer: int, i: nat)
    requires IdsRise(chain) && AllWellKept(chain) && fileSize > 0 && i < |chain|
    ensures Given(Plan(chain, segmentSize, fileSize, score, fileLayer, lastLayer), chain[i].id)
         == Kept(chain[i], ArrivalAt(chain, Arrives(fileSize, segmentSize), score, fileLayer, lastLayer, i), score,
                 fileLayer, lastLayer)
    decreases |chain|
  {
    var at := Arrives(fileSize, segmentSize);
    var next := Onward(chain[0], at, score, fileLayer, lastLayer);
    var kept := Kept(chain[0], at, score, fileLayer, lastLayer);
    PlanSplits(chain, segmentSize, fileSize, score, fileLayer, lastLayer);
    hide Plan, Onward, Kept, WellKept;
    var rest := if next.Over? then [] else Plan(chain[1..], next.key, next.size, score, fileLayer, lastLayer);
    if next.Arrives? {
      PlanDescends(chain[1..], next.key, next.size, score, fileLayer, lastLayer);
    }
    hide Descends;
    FirstShare(chain, rest, kept, chain[i].id);
    if i == 0 {
      if next.Arrives? {
        NothingElsewhere(rest, chain[1..], chain[0].id);
      }
    } else if next.Arrives? {
      GivenIsKept(chain[1..], next.key, next.size, score, fileLayer, lastLayer, i - 1);
    } else {
      NothingArrives(chain[1..], score, fileLayer, lastLayer, i - 1);
      NothingKept(chain[i], score, fileLayer, lastLayer);
    }
  }

  lemma NothingKept(layer: LayerView, score: real, fileLayer: int, lastLayer: int)
    ensures Kept(layer, Over, score, fileLayer, lastLayer) == 0
  {
  }

  lemma FirstShare(chain: seq<LayerView>, rest: seq<Share>, kept: int, layer: int)
    requires chain != []
    ensures Given((if kept > 0 then [Share(chain[0].id, kept)] else []) + rest, layer)
         == (if kept > 0 && layer == chain[0].id then kept else 0) + Given(rest, layer)
  {
    if kept > 0 {
      assert ([Share(chain[0].id, kept)] + rest)[1..] == rest;
    } else {
      assert [] + rest == rest;
    }
  }

  /** And receives exactly that many bytes. */
  lemma LayersReceiveWhatTheyKeep(chain: seq<LayerView>, segmentSize: int, file: PosixFile, index: int, score: real,
                                  lastLayer: int, firstName: nat, i: nat)
    requires IdsRise(chain) && AllWellKept(chain) && file.GetSize() > 0 && i < |chain|
    ensures var plan := Plan(chain, segmentSize, file.GetSize(), score, file.layer, lastLayer);
            BytesTo(CarryOut(plan, file, index, score, file.layer == lastLayer, firstName).placements, chain[i].id)
            == Kept(chain[i], ArrivalAt(chain, Arrives(file.GetSize(), segmentSize), score, file.layer, lastLayer, i),
                    score, file.layer, lastLayer)
  {
    hide *;
    PlanIsAffordable(chain, segmentSize, file.GetSize(), score, file.layer, lastLayer);
    var plan := Plan(chain, segmentSize, file.GetSize(), score, file.layer, lastLayer);
    LayersReceiveTheirShare(plan, file, index, score, file.layer == lastLayer, firstName, chain[i].id);
    GivenIsKept(chain, segmentSize, file.GetSize(), score, file.layer, lastLayer, i);
  }

  /** All layers before the i-th are passed over. */
  ghost predicate PassesTo(chain: seq<LayerView>, segmentSize: int, score: real, fileLayer: int, lastLayer: int,
                           i: nat)
  {
    i < |chain| && forall k :: 0 <= k < i ==>
      !StopsAt(chain[k], fileLayer, lastLayer) && PassedOver(chain[k], segmentSize, score)
  }

  lemma {:induction false} PassedOnArrives(chain: seq<LayerView>, segmentSize: int, fileSize: int, score: real,
                                           fileLayer: int, lastLayer: int, i: nat)
    requires PassesTo(chain, segmentSize, score, fileLayer, lastLayer, i)
    ensures ArrivalAt(chain, Arrives(fileSize, segmentSize), score, fileLayer, lastLayer, i)
         == Arrives(fileSize, segmentSize)
    decreases i
  {
    if i > 0 {
      assert PassedOver(chain[0], segmentSize, score);
      hide PassedOver;
      PassedOnArrives(chain[1..], segmentSize, fileSize, score, fileLayer, lastLayer, i - 1);
    }
  }

  lemma {:induction false} PassedOnPlan(chain: seq<LayerView>, segmentSize: int, fileSize: int, score: real,
                                        fileLayer: int, lastLayer: int, i: nat)
    requires AllWellKept(chain) && fileSize > 0 && PassesTo(chain, segmentSize, score, fileLayer, lastLayer, i)
    ensures Plan(chain, segmentSize, fileSize, score, fileLayer, lastLayer)
         == Plan(chain[i..], segmentSize, fileSize, score, fileLayer, lastLayer)
    decreases i
  {
    if i > 0 {
      PlanSplits(chain, segmentSize, fileSize, score, fileLayer, lastLayer);
      assert !StopsAt(chain[0], fileLayer, lastLayer) && PassedOver(chain[0], segmentSize, score);
      hide Plan, PassedOver, WellKept;
      PassedOnPlan(chain[1..], segmentSize, fileSize, score, fileLayer, lastLayer, i - 1);
      assert chain[1..][i - 1..] == chain[i..];
    } else {
      assert chain[0..] == chain;
    }
  }

  /** The first layer that is not passed over takes the whole file if its free space is enough for the key,
      whatever is on it scores. */
  lemma RoomyLayerTakesAll(chain: seq<LayerView>, segmentSize: int, fileSize: int, score: real, fileLayer: int,
                           lastLayer: int, i: nat)
    requires AllWellKept(chain) && fileSize > 0 && PassesTo(chain, segmentSize, score, fileLayer, lastLayer, i)
    requires !StopsAt(chain[i], fileLayer, lastLayer) && chain[i].free >= segmentSize as real
    ensures Plan(chain, segmentSize, fileSize, score, fileLayer, lastLayer) == [Share(chain[i].id, fileSize)]
  {
    PassedOnPlan(chain, segmentSize, fileSize, score, fileLayer, lastLayer, i);
    assert chain[i..][0] == chain[i] && WellKept(chain[i].victims);
    PlanSplits(chain[i..], segmentSize, fileSize, score, fileLayer, lastLayer);
    hide Plan, PassesTo, AllWellKept;
  }

  /** A layer gets nothing of what arrives there if and only if the walk stops at it, it is passed over, or it
      has nothing to offer. */
  lemma GetsNothingIff(chain: seq<LayerView>, segmentSize: int, file: PosixFile, index: int, score: real,
                       lastLayer: int, firstName: nat, i: nat)
    requires IdsRise(chain) && AllWellKept(chain) && file.GetSize() > 0 && i < |chain|
    requires ArrivalAt(chain, Arrives(file.GetSize(), segmentSize), score, file.layer, lastLayer, i).Arrives?
    ensures var plan := Plan(chain, segmentSize, file.GetSize(), score, file.layer, lastLayer);
            var key := ArrivalAt(chain, Arrives(file.GetSize(), segmentSize), score, file.layer, lastLayer, i).key;
            BytesTo(CarryOut(plan, file, index, score, file.layer == lastLayer, firstName).placements, chain[i].id) == 0
            <==> StopsAt(chain[i], file.layer, lastLayer)
                 || (chain[i].free < key as real
                     && (PassedOver(chain[i], key, score) || Offer(chain[i], score) <= 0))
  {
    LayersReceiveWhatTheyKeep(chain, segmentSize, file, index, score, lastLayer, firstName, i);
    SomethingArrives(chain, Arrives(file.GetSize(), segmentSize), score, file.layer, lastLayer, i);
    hide Plan, CarryOut, BytesTo, ArrivalAt, PassedOver, Offer, IdsRise, AllWellKept, StopsAt;
  }

  lemma {:induction false} SomethingArrives(chain: seq<LayerView>, at: Arrival, score: real, fileLayer: int,
                                            lastLayer: int, i: nat)
    requires i <= |chain| && (at.Arrives? ==> at.size > 0)
    ensures var there := ArrivalAt(chain, at, score, fileLayer, lastLayer, i); there.Arrives? ==> there.size > 0
    decreases i
  {
    if i > 0 {
      hide PassedOver, Offer, StopsAt;
      SomethingArrives(chain[1..], Onward(chain[0], at, score, fileLayer, lastLayer), score, fileLayer, lastLayer,
                       i - 1);
    }
  }

  /** A file of 100 bytes that scores 3, and a layer with 1000 bytes free that holds something of score 5. */
  lemma FreeSpaceNeedsNoScore(victim: Victim)
    requires victim.score == 5.0 && victim.buffered.GetSize() >= 0
    ensures Plan([LayerView(1, 1000.0, [victim]), LayerView(2, 0.0, [])], 100, 100, 3.0, 2, 2) == [Share(1, 100)]
  {
    var chain := [LayerView(1, 1000.0, [victim]), LayerView(2, 0.0, [])];
    assert AllWellKept(chain);
    RoomyLayerTakesAll(chain, 100, 100, 3.0, 2, 2, 0);
  }

  // ----- where on a layer the bytes go

  /** The segments written on a layer, in order. */
  ghost function WrittenOn(p: seq<Placement>, layer: int): seq<Segment> {
    if p == [] then [] else
      (if p[0].destination.layer == layer then [p[0].destination.segment] else []) + WrittenOn(p[1..], layer)
  }

  lemma Regroup(a: seq<Segment>, b: seq<Segment>, c: seq<Segment>)
    ensures a + (b + c) == a + b + c
  {
  }

  lemma {:induction false} WrittenConcat(p: seq<Placement>, q: seq<Placement>, layer: int)
    ensures WrittenOn(p + q, layer) == WrittenOn(p, layer) + WrittenOn(q, layer)
  {
    if p == [] {
      assert p + q == q;
    } else {
      assert (p + q)[1..] == p[1..] + q;
      WrittenConcat(p[1..], q, layer);
      var head := if p[0].destination.layer == layer then [p[0].destination.segment] else [];
      Regroup(head, WrittenOn(p[1..], layer), WrittenOn(q, layer));
    }
  }

  /** Fetched data starts every buffer file anew; other data fills the file on the layer from its start on. */
  ghost predicate WrittenFrom(s: seq<Segment>, fromLast: bool, start: int, end: int) {
    if fromLast then forall i :: 0 <= i < |s| ==> s[i].start == 0
    else Consecutive(s, start) && After(s, start) == end
  }

  lemma {:induction false} PlacedWrites(source: PosixFile, destination: PosixFile, score: real, fromLast: bool,
                                        firstName: nat, layer: int)
    requires destination.GetSize() >= 0
    ensures var s := WrittenOn(Placed(source, destination, score, fromLast, firstName), layer);
            if destination.layer == layer
            then WrittenFrom(s, fromLast, destination.segment.start, destination.segment.end + 1) else s == []
    decreases destination.GetSize()
  {
    if destination.GetSize() > 0 {
      var p := Placed(source, destination, score, fromLast, firstName);
      var rest := Placed(Back(source, SEGMENT_SIZE), Back(destination, SEGMENT_SIZE), score, fromLast, firstName + 1);
      assert p[1..] == rest;
      if destination.GetSize() > SEGMENT_SIZE {
        PlacedWrites(Back(source, SEGMENT_SIZE), Back(destination, SEGMENT_SIZE), score, fromLast, firstName + 1,
                     layer);
      } else {
        assert rest == [];
      }
    }
  }

  /** What the first share writes on a layer, and then the others. */
  lemma WrittenSplits(plan: seq<Share>, file: PosixFile, index: int, score: real, fromLast: bool, firstName: nat,
                      layer: int)
    returns (head: seq<Segment>, nextName: nat)
    requires plan != [] && plan[0].bytes >= 0
    ensures var n := plan[0].bytes;
            var others := CarryOut(plan[1..], Back(file, n), file.segment.start + n, score, fromLast, nextName);
            WrittenOn(CarryOut(plan, file, index, score, fromLast, firstName).placements, layer)
            == head + WrittenOn(others.placements, layer)
    ensures if plan[0].layer == layer then WrittenFrom(head, fromLast, 0, plan[0].bytes) else head == []
  {
    var n := plan[0].bytes;
    var front, back, mid := Front(file, n), Back(file, n), file.segment.start + n;
    var first := PlaceShare(front, plan[0].layer, index, score, fromLast, firstName);
    nextName := first.nextName;
    var others := CarryOut(plan[1..], back, mid, score, fromLast, nextName);
    head := WrittenOn(first.placements, layer);
    PlacedWrites(SourceOf(front, index), DestinationOf(front, plan[0].layer), score, fromLast, firstName, layer);
    hide CarryOut, WrittenFrom, WrittenOn, Placed;
    CarryOutSplits(plan, file, index, score, fromLast, firstName, first, others);
    WrittenConcat(first.placements, others.placements, layer);
  }

  lemma {:induction false} NothingWritten(plan: seq<Share>, file: PosixFile, index: int, score: real, fromLast: bool,
                                          firstName: nat, layer: int)
    requires Affordable(plan, file.GetSize()) && forall i :: 0 <= i < |plan| ==> plan[i].layer != layer
    ensures WrittenOn(CarryOut(plan, file, index, score, fromLast, firstName).placements, layer) == []
    decreases |plan|
  {
    if plan != [] {
      var n := plan[0].bytes;
      var head, nextName := WrittenSplits(plan, file, index, score, fromLast, firstName, layer);
      hide CarryOut, WrittenOn, WrittenFrom;
      NothingWritten(plan[1..], Back(file, n), file.segment.start + n, score, fromLast, nextName, layer);
    }
  }

  /** No layer has two shares. */
  ghost predicate OneEach(plan: seq<Share>) {
    forall i, j :: 0 <= i < j < |plan| ==> plan[i].layer != plan[j].layer
  }

  /** Each layer's share is written from 0 on without gap or overlap, or, if it is fetched, into files of its own
      from 0 on. */
  lemma {:induction false} SharesAreWrittenFromZero(plan: seq<Share>, file: PosixFile, index: int, score: real,
                                                    fromLast: bool, firstName: nat, layer: int)
    requires Affordable(plan, file.GetSize()) && OneEach(plan)
    ensures WrittenFrom(WrittenOn(CarryOut(plan, file, index, score, fromLast, firstName).placements, layer), fromLast,
                        0, Given(plan, layer))
    decreases |plan|
  {
    hide CarryOut, WrittenOn, WrittenFrom, Given;
    if plan == [] {
      EmptyWritten(plan, file, index, score, fromLast, firstName, layer);
    } else {
      var n := plan[0].bytes;
      var back, mid := Back(file, n), file.segment.start + n;
      var head, nextName := WrittenSplits(plan, file, index, score, fromLast, firstName, layer);
      var others := CarryOut(plan[1..], back, mid, score, fromLast, nextName);
      if plan[0].layer == layer {
        NothingWritten(plan[1..], back, mid, score, fromLast, nextName, layer);
        SoleGiven(plan, layer);
        assert head + WrittenOn(others.placements, layer) == head;
      } else {
        SharesAreWrittenFromZero(plan[1..], back, mid, score, fromLast, nextName, layer);
        OthersGiven(plan, layer);
        assert head + WrittenOn(others.placements, layer) == WrittenOn(others.placements, layer);
      }
    }
  }

  lemma EmptyWritten(plan: seq<Share>, file: PosixFile, index: int, score: real, fromLast: bool, firstName: nat,
                     layer: int)
    requires plan == []
    ensures WrittenFrom(WrittenOn(CarryOut(plan, file, index, score, fromLast, firstName).placements, layer), fromLast,
                        0, Given(plan, layer))
  {
  }

  lemma SoleGiven(plan: seq<Share>, layer: int)
    requires OneEach(plan) && plan != [] && plan[0].layer == layer
    ensures Given(plan, layer) == plan[0].bytes
  {
    NothingGiven(plan[1..], layer);
  }

  lemma OthersGiven(plan: seq<Share>, layer: int)
    requires plan != [] && plan[0].layer != layer
    ensures Given(plan, layer) == Given(plan[1..], layer)
  {
  }

  lemma {:induction false} NothingGiven(plan: seq<Share>, layer: int)
    requires forall i :: 0 <= i < |plan| ==> plan[i].layer != layer
    ensures Given(plan, layer) == 0
  {
    if plan != [] {
      NothingGiven(plan[1..], layer);
    }
  }

  lemma {:induction false} DescendsOneEach(plan: seq<Share>, chain: seq<LayerView>)
    requires IdsRise(chain) && Descends(plan, chain)
    ensures OneEach(plan)
    decreases |chain|
  {
    if plan != [] {
      if plan[0].layer == chain[0].id {
        DescendsOneEach(plan[1..], chain[1..]);
        DescendsBelow(plan[1..], chain[1..]);
        forall i, j | 0 <= i < j < |plan|
          ensures plan[i].layer != plan[j].layer
        {
          if i == 0 {
            var k :| 0 <= k < |chain[1..]| && chain[1..][k].id == plan[1..][j - 1].layer;
            assert chain[0].id < chain[k + 1].id;
          } else {
            assert plan[1..][i - 1].layer != plan[1..][j - 1].layer;
          }
        }
      } else {
        DescendsOneEach(plan, chain[1..]);
      }
    }
  }

  /** Over a whole decision on a chain with rising ids. */
  lemma DecisionWritesFromZero(chain: seq<LayerView>, segmentSize: int, file: PosixFile, index: int, score: real,
                               lastLayer: int, firstName: nat, layer: int)
    requires IdsRise(chain) && file.GetSize() >= 0
    ensures var plan := Plan(chain, segmentSize, file.GetSize(), score, file.layer, lastLayer);
            var p := CarryOut(plan, file, index, score, file.layer == lastLayer, firstName).placements;
            WrittenFrom(WrittenOn(p, layer), file.layer == lastLayer, 0, BytesTo(p, layer))
  {
    hide *;
    var plan := Plan(chain, segmentSize, file.GetSize(), score, file.layer, lastLayer);
    PlanIsAffordable(chain, segmentSize, file.GetSize(), score, file.layer, lastLayer);
    PlanDescends(chain, segmentSize, file.GetSize(), score, file.layer, lastLayer);
    DescendsOneEach(plan, chain);
    SharesAreWrittenFromZero(plan, file, index, score, file.layer == lastLayer, firstName, layer);
    LayersReceiveTheirShare(plan, file, index, score, file.layer == lastLayer, firstName, layer);
  }
}
