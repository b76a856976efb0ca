/** What a placement decision guarantees, whatever the capacities, scores and splits: sources
    tile a prefix of the file, data only moves up, buffer files are never shared. That layers only
    get what they have room for is guaranteed exactly if the file is no larger than its key. */
module PlacementProperties {

  import opened Segments
  import opened Placement

  ghost function Sources(p: seq<Placement>): (s: seq<Segment>)
    ensures |s| == |p| && forall i :: 0 <= i < |s| ==> s[i] == p[i].source.segment
  {
    seq(|p|, i requires 0 <= i < |p| => p[i].source.segment)
  }

  /** The byte after the last one of consecutive segments from `start`. */
  ghost function After(s: seq<Segment>, start: int): int {
    if s == [] then start else s[|s| - 1].end + 1
  }

  ghost function Total(plan: seq<Share>): int {
    if plan == [] then 0 else plan[0].bytes + Total(plan[1..])
  }

  /** One read of the file at most SEGMENT_SIZE long, into a destination of the same size. */
  ghost predicate Faithful(p: Placement, filename: string, layer: int, score: real) {
    && p.source.filename == filename && p.source.layer == layer
    && 1 <= p.source.GetSize() <= SEGMENT_SIZE
    && p.destination.GetSize() == p.source.GetSize()
    && p.score == score
  }

  /** The placements read the file from `start` up to, not including, `end`: no gap, no overlap. */
  ghost predicate Reads(p: seq<Placement>, filename: string, layer: int, start: int, end: int, score: real) {
    && Consecutive(Sources(p), start)
    && After(Sources(p), start) == end
    && forall i :: 0 <= i < |p| ==> Faithful(p[i], filename, layer, score)
  }

  lemma ReadsConcat(p: seq<Placement>, q: seq<Placement>, filename: string, layer: int,
                    start: int, mid: int, end: int, score: real)
    requires Reads(p, filename, layer, start, mid, score) && Reads(q, filename, layer, mid, end, score)
    ensures Reads(p + q, filename, layer, start, end, score)
  {
    hide Faithful;
    var a, b, c := Sources(p), Sources(q), Sources(p + q);
    assert c == a + b;
    forall i | 0 < i < |c|
      ensures c[i].start == c[i - 1].end + 1
    {
      if i == |a| {
        assert c[i] == b[0] && c[i - 1] == a[|a| - 1];
      } else if i > |a| {
        assert c[i] == b[i - |a|] && c[i - 1] == b[i - |a| - 1];
      }
    }
  }

  lemma OneRead(p: Placement, filename: string, layer: int, score: real)
    requires Faithful(p, filename, layer, score)
    ensures Reads([p], filename, layer, p.source.segment.start, p.source.segment.end + 1, score)
  {
  }

  lemma NoRead(filename: string, layer: int, start: int, score: real)
    ensures Reads([], filename, layer, start, start, score)
  {
  }

  /** A source and a destination of one size are cut into pairs of one size that tile the source. */
  lemma {:induction false} PlacedReads(source: PosixFile, destination: PosixFile, score: real, fromLast: bool,
                                       firstName: nat)
    requires 0 <= source.GetSize() == destination.GetSize()
    ensures Reads(Placed(source, destination, score, fromLast, firstName), source.filename, source.layer,
                  source.segment.start, source.segment.end + 1, score)
    decreases destination.GetSize()
  {
    hide Reads;
    if destination.GetSize() == 0 {
      NoRead(source.filename, source.layer, source.segment.start, score);
    } else {
      var p := Placed(source, destination, score, fromLast, firstName);
      var rest := Placed(Back(source, SEGMENT_SIZE), Back(destination, SEGMENT_SIZE), score, fromLast, firstName + 1);
      assert p == [p[0]] + rest;
      var mid := p[0].source.segment.end + 1;
      OneRead(p[0], source.filename, source.layer, score);
      if destination.GetSize() > SEGMENT_SIZE {
        PlacedReads(Back(source, SEGMENT_SIZE), Back(destination, SEGMENT_SIZE), score, fromLast, firstName + 1);
      } else {
        NoRead(source.filename, source.layer, mid, score);
        assert rest == [] && mid == source.segment.end + 1;
      }
      ReadsConcat([p[0]], rest, source.filename, source.layer, source.segment.start, mid,
                  source.segment.end + 1, score);
    }
  }

  /** The first share and the others, side by side. */
  lemma CarryOutSplits(plan: seq<Share>, file: PosixFile, index: int, score: real, fromLast: bool, firstName: nat,
                       first: Outcome, others: Outcome)
    requires plan != []
    requires first == PlaceShare(Front(file, plan[0].bytes), plan[0].layer, index, score, fromLast, firstName)
    requires others == CarryOut(plan[1..], Back(file, plan[0].bytes), file.segment.start + plan[0].bytes, score,
                                fromLast, first.nextName)
    ensures CarryOut(plan, file, index, score, fromLast, firstName) ==
            Outcome(first.placements + others.placements, others.nextName)
  {
  }

  /** The sources of all placements, in order, tile a contiguous prefix of the file, and every
      destination has its source's size. */
  lemma {:induction false} PlacementsTilePrefix(plan: seq<Share>, file: PosixFile, score: real, fromLast: bool,
                                                firstName: nat)
    requires Affordable(plan, file.GetSize())
    ensures 0 <= Total(plan) <= file.GetSize()
    ensures Reads(CarryOut(plan, file, file.segment.start, score, fromLast, firstName).placements, file.filename,
                  file.layer, file.segment.start, file.segment.start + Total(plan), score)
    decreases |plan|
  {
    hide CarryOut, Reads;
    if plan == [] {
      CarryOutNothing(file, file.segment.start, score, fromLast, firstName);
      NoRead(file.filename, file.layer, file.segment.start, score);
    } else {
      var n, start := plan[0].bytes, file.segment.start;
      var front, back, mid := Front(file, n), Back(file, n), start + n;
      var first := PlaceShare(front, plan[0].layer, start, score, fromLast, firstName);
      var others := CarryOut(plan[1..], back, mid, score, fromLast, first.nextName);
      assert SourceOf(front, start) == front && front.segment.end + 1 == mid;
      PlacedReads(front, DestinationOf(front, plan[0].layer), score, fromLast, firstName);
      PlacementsTilePrefix(plan[1..], back, score, fromLast, first.nextName);
      CarryOutSplits(plan, file, start, score, fromLast, firstName, first, others);
      ReadsConcat(first.placements, others.placements, file.filename, file.layer, start, mid,
                  mid + Total(plan[1..]), score);
    }
  }

  ghost predicate ReadsFromStart(p: seq<Placement>, file: PosixFile, score: real) {
    Reads(p, file.filename, file.layer, file.segment.start, After(Sources(p), file.segment.start), score)
  }

  /** A decision started with another index than the file's own start (as a walk from index 0
      does for every file segment further in) reads the wrong bytes: the placements tile a
      prefix of the file exactly when the index is the file's start, or nothing is placed. */
  lemma TilesIffAligned(plan: seq<Share>, file: PosixFile, index: int, score: real, fromLast: bool, firstName: nat)
    requires Affordable(plan, file.GetSize()) && (plan != [] ==> plan[0].bytes > 0)
    ensures var p := CarryOut(plan, file, index, score, fromLast, firstName).placements;
            ReadsFromStart(p, file, score) <==> plan == [] || index == file.segment.start
  {
    var p := CarryOut(plan, file, index, score, fromLast, firstName).placements;
    if plan == [] {
    } else if index == file.segment.start {
      PlacementsTilePrefix(plan, file, score, fromLast, firstName);
    } else {
      var front := Front(file, plan[0].bytes);
      var first := Placed(SourceOf(front, index), DestinationOf(front, plan[0].layer), score, fromLast, firstName);
      assert p[0] == first[0] && Sources(p)[0].start == index;
    }
  }

  // ----- where the bytes go

  /** Bytes written to a layer. */
  ghost function BytesTo(p: seq<Placement>, layer: int): int {
    if p == [] then 0
    else (if p[0].destination.layer == layer then p[0].destination.GetSize() else 0) + BytesTo(p[1..], layer)
  }

  /** Bytes a plan gives to a layer. */
  ghost function Given(plan: seq<Share>, layer: int): int {
    if plan == [] then 0 else (if plan[0].layer == layer then plan[0].bytes else 0) + Given(plan[1..], layer)
  }

  lemma {:induction false} BytesToConcat(p: seq<Placement>, q: seq<Placement>, layer: int)
    ensures BytesTo(p + q, layer) == BytesTo(p, layer) + BytesTo(q, layer)
  {
    if p == [] {
      assert p + q == q;
    } else {
      assert (p + q)[1..] == p[1..] + q;
      BytesToConcat(p[1..], q, layer);
    }
  }

  lemma {:induction false} PlacedBytes(source: PosixFile, destination: PosixFile, score: real, fromLast: bool,
                                       firstName: nat, layer: int)
    requires destination.GetSize() >= 0
    ensures BytesTo(Placed(source, destination, score, fromLast, firstName), layer) ==
            if destination.layer == layer then destination.GetSize() else 0
    decreases destination.GetSize()
  {
    if destination.GetSize() > 0 {
      var p := Placed(source, destination, score, fromLast, firstName);
      var rest := Placed(Back(source, SEGMENT_SIZE), Back(destination, SEGMENT_SIZE), score, fromLast, firstName + 1);
      assert p[1..] == rest;
      if destination.GetSize() > SEGMENT_SIZE {
        PlacedBytes(Back(source, SEGMENT_SIZE), Back(destination, SEGMENT_SIZE), score, fromLast, firstName + 1, layer);
      }
    }
  }

  /** Every layer receives exactly the bytes the plan gives it. */
  lemma {:induction false} LayersReceiveTheirShare(plan: seq<Share>, file: PosixFile, index: int, score: real,
                                                   fromLast: bool, firstName: nat, layer: int)
    requires Affordable(plan, file.GetSize())
    ensures BytesTo(CarryOut(plan, file, index, score, fromLast, firstName).placements, layer) == Given(plan, layer)
    decreases |plan|
  {
    if plan != [] {
      var n := plan[0].bytes;
      var front, back, mid := Front(file, n), Back(file, n), file.segment.start + n;
      var first := PlaceShare(front, plan[0].layer, index, score, fromLast, firstName);
      var others := CarryOut(plan[1..], back, mid, score, fromLast, first.nextName);
      PlacedBytes(SourceOf(front, index), DestinationOf(front, plan[0].layer), score, fromLast, firstName, layer);
      LayersReceiveTheirShare(plan[1..], back, mid, score, fromLast, first.nextName, layer);
      CarryOutSplits(plan, file, index, score, fromLast, firstName, first, others);
      BytesToConcat(first.placements, others.placements, layer);
    }
  }

  ghost predicate IdsRise(chain: seq<LayerView>) {
    forall i, j :: 0 <= i < j < |chain| ==> chain[i].id < chain[j].id
  }

  // ----- which layers are used

  /** Each share goes to a layer further down the chain than the one before. */
  ghost predicate Descends(plan: seq<Share>, chain: seq<LayerView>)
    decreases |chain|
  {
    plan == [] ||
    (chain != [] && if plan[0].layer == chain[0].id then Descends(plan[1..], chain[1..])
                    else Descends(plan, chain[1..]))
  }

  /** A plan walks down the chain, whatever the sizes of file and key, and never uses the layer the
      data is on already, nor the last one. */
  lemma {:induction false} PlanDescends(chain: seq<LayerView>, segmentSize: int, fileSize: int, score: real,
                                        fileLayer: int, lastLayer: int)
    requires IdsRise(chain)
    ensures var plan := Plan(chain, segmentSize, fileSize, score, fileLayer, lastLayer);
            && Descends(plan, chain)
            && forall i :: 0 <= i < |plan| ==> plan[i].layer != fileLayer && plan[i].layer != lastLayer
    decreases |chain|
  {
    if chain != [] {
      DecisionMoves(chain[0], segmentSize, fileSize, score, fileLayer, lastLayer);
      hide DecisionOf;
      match DecisionOf(chain[0], segmentSize, fileSize, score, fileLayer, lastLayer)
      case Stop =>
      case TakeAll =>
        assert [Share(chain[0].id, fileSize)][1..] == [];
      case Take(n) =>
        PlanDescends(chain[1..], fileSize - n, fileSize - n, score, fileLayer, lastLayer);
        var rest := Plan(chain[1..], fileSize - n, fileSize - n, score, fileLayer, lastLayer);
        assert ([Share(chain[0].id, n)] + rest)[1..] == rest;
      case Skip =>
        PlanDescends(chain[1..], segmentSize, fileSize, score, fileLayer, lastLayer);
        DescendsBelow(Plan(chain[1..], segmentSize, fileSize, score, fileLayer, lastLayer), chain[1..]);
    }
  }

  lemma DecisionMoves(layer: LayerView, segmentSize: int, fileSize: int, score: real, fileLayer: int, lastLayer: int)
    ensures var d := DecisionOf(layer, segmentSize, fileSize, score, fileLayer, lastLayer);
            && (d.Take? ==> 0 < d.bytes < fileSize)
            && (!d.Stop? ==> layer.id != fileLayer && layer.id != lastLayer)
  {
  }

  /** The layers of a descending plan are layers of the chain. */
  lemma {:induction false} DescendsBelow(plan: seq<Share>, chain: seq<LayerView>)
    requires Descends(plan, chain)
    ensures forall i :: 0 <= i < |plan| ==> exists k :: 0 <= k < |chain| && chain[k].id == plan[i].layer
    decreases |chain|
  {
    if plan != [] {
      if plan[0].layer == chain[0].id {
        DescendsBelow(plan[1..], chain[1..]);
        forall i | 0 <= i < |plan|
          ensures exists k :: 0 <= k < |chain| && chain[k].id == plan[i].layer
        {
          if i > 0 {
            var k :| 0 <= k < |chain[1..]| && chain[1..][k].id == plan[1..][i - 1].layer;
            assert chain[k + 1].id == plan[i].layer;
          }
        }
      } else {
        DescendsBelow(plan, chain[1..]);
        forall i | 0 <= i < |plan|
          ensures exists k :: 0 <= k < |chain| && chain[k].id == plan[i].layer
        {
          var k :| 0 <= k < |chain[1..]| && chain[1..][k].id == plan[i].layer;
          assert chain[k + 1].id == plan[i].layer;
        }
      }
    }
  }

  /** Faster layers have smaller ids. */
  ghost predicate AllAbove(plan: seq<Share>, layer: int) {
    forall i :: 0 <= i < |plan| ==> plan[i].layer < layer
  }

  /** Shares go strictly above a layer on the chain where the walk stops, whatever the sizes. */
  lemma {:induction false} StaysAbove(chain: seq<LayerView>, segmentSize: int, fileSize: int, score: real,
                                      fileLayer: int, lastLayer: int, k: nat)
    requires IdsRise(chain)
    requires k < |chain| && (chain[k].id == fileLayer || chain[k].id == lastLayer)
    ensures AllAbove(Plan(chain, segmentSize, fileSize, score, fileLayer, lastLayer), chain[k].id)
    decreases |chain|
  {
    if k > 0 {
      assert chain[0].id < chain[k].id && chain[1..][k - 1] == chain[k];
      hide DecisionOf;
      match DecisionOf(chain[0], segmentSize, fileSize, score, fileLayer, lastLayer)
      case Stop =>
      case TakeAll =>
      case Take(n) =>
        StaysAbove(chain[1..], fileSize - n, fileSize - n, score, fileLayer, lastLayer, k - 1);
      case Skip =>
        StaysAbove(chain[1..], segmentSize, fileSize, score, fileLayer, lastLayer, k - 1);
    }
  }

  ghost predicate PlacedAbove(p: seq<Placement>, layer: int) {
    forall i :: 0 <= i < |p| ==> p[i].destination.layer < layer
  }

  lemma AboveConcat(p: seq<Placement>, q: seq<Placement>, layer: int)
    requires PlacedAbove(p, layer) && PlacedAbove(q, layer)
    ensures PlacedAbove(p + q, layer)
  {
  }

  lemma {:induction false} PlacedStaysAbove(source: PosixFile, destination: PosixFile, score: real, fromLast: bool,
                                            firstName: nat, layer: int)
    requires destination.layer < layer
    ensures PlacedAbove(Placed(source, destination, score, fromLast, firstName), layer)
    decreases destination.GetSize()
  {
    if destination.GetSize() > 0 {
      var p := Placed(source, destination, score, fromLast, firstName);
      var rest := Placed(Back(source, SEGMENT_SIZE), Back(destination, SEGMENT_SIZE), score, fromLast, firstName + 1);
      assert p == [p[0]] + rest;
      PlacedStaysAbove(Back(source, SEGMENT_SIZE), Back(destination, SEGMENT_SIZE), score, fromLast, firstName + 1,
                       layer);
      AboveConcat([p[0]], rest, layer);
    }
  }

  lemma {:induction false} CarriedAbove(plan: seq<Share>, file: PosixFile, index: int, score: real, fromLast: bool,
                                        firstName: nat, layer: int)
    requires AllAbove(plan, layer)
    ensures PlacedAbove(CarryOut(plan, file, index, score, fromLast, firstName).placements, layer)
    decreases |plan|
  {
    if plan != [] {
      var n := plan[0].bytes;
      var front, mid := Front(file, n), file.segment.start + n;
      var first := PlaceShare(front, plan[0].layer, index, score, fromLast, firstName);
      var others := CarryOut(plan[1..], Back(file, n), mid, score, fromLast, first.nextName);
      PlacedStaysAbove(SourceOf(front, index), DestinationOf(front, plan[0].layer), score, fromLast, firstName, layer);
      CarriedAbove(plan[1..], Back(file, n), mid, score, fromLast, first.nextName, layer);
      CarryOutSplits(plan, file, index, score, fromLast, firstName, first, others);
      AboveConcat(first.placements, others.placements, layer);
    }
  }

  /** The position theorem: on a chain with rising ids, whatever the sizes, capacities and scores,
      data is only placed above the layer it is on and above the last layer. */
  lemma DataOnlyMovesUp(chain: seq<LayerView>, segmentSize: int, file: PosixFile, index: int, score: real,
                        lastLayer: int, firstName: nat, k: nat)
    requires IdsRise(chain) && k < |chain| && (chain[k].id == file.layer || chain[k].id == lastLayer)
    ensures var plan := Plan(chain, segmentSize, file.GetSize(), score, file.layer, lastLayer);
            PlacedAbove(CarryOut(plan, file, index, score, file.layer == lastLayer, firstName).placements, chain[k].id)
  {
    hide Plan, CarryOut, AllAbove, PlacedAbove, IdsRise;
    StaysAbove(chain, segmentSize, file.GetSize(), score, file.layer, lastLayer, k);
    var plan := Plan(chain, segmentSize, file.GetSize(), score, file.layer, lastLayer);
    CarriedAbove(plan, file, index, score, file.layer == lastLayer, firstName, chain[k].id);
  }

  // ----- how much they get

  /** So many bytes fit the free space of a layer plus the bytes of some lowest victims, all of
      which score less than the data that displaces them. */
  ghost predicate HasRoom(layer: LayerView, score: real, bytes: int) {
    exists n: nat :: n <= |layer.victims| && Displaces(layer, score, bytes, n)
  }

  ghost predicate Displaces(layer: LayerView, score: real, bytes: int, n: nat)
    requires n <= |layer.victims|
  {
    && bytes <= layer.free.Floor + BytesFrom(layer.victims, n, |layer.victims|)
    && forall k :: n <= k < |layer.victims| ==> layer.victims[k].score < score
  }

  lemma {:induction false} SparedScoreLess(victims: seq<Victim>, n: nat, space: int, score: real, size: int)
    requires n <= |victims|
    ensures forall k :: Spared(victims, n, space, score, size) <= k < n ==> victims[k].score < score
  {
    if n > 0 && victims[n - 1].score < score && space < size {
      SparedScoreLess(victims, n - 1, space + victims[n - 1].buffered.GetSize(), score, size);
    }
  }

  /** The scan from position n down does not pass by enough space. */
  lemma {:induction false} ScanFindsSpace(victims: seq<Victim>, n: nat, space: int, score: real, size: int, m: nat)
    requires m <= n <= |victims| && space + BytesFrom(victims, m, n) >= size
    requires forall k :: m <= k < n ==> victims[k].score < score
    ensures var spared := Spared(victims, n, space, score, size);
            space + BytesFrom(victims, spared, n) >= size
    decreases n
  {
    if m < n && space < size {
      var next := space + victims[n - 1].buffered.GetSize();
      BytesFromEnd(victims, m, n);
      ScanFindsSpace(victims, n - 1, next, score, size, m);
      BytesFromEnd(victims, Spared(victims, n - 1, next, score, size), n);
    }
  }

  /** The victim scan of a layer decides whether it has room: the test that an eviction makes. */
  lemma ScanIffRoom(layer: LayerView, score: real, size: int)
    ensures HasRoom(layer, score, size) <==> Space(layer.free, layer.victims, score, size) >= size
  {
    var v, free := layer.victims, layer.free.Floor;
    var spared := Spared(v, |v|, free, score, size);
    SparedScoreLess(v, |v|, free, score, size);
    if Space(layer.free, v, score, size) >= size {
      assert Displaces(layer, score, size, spared);
    }
    if n: nat :| n <= |v| && Displaces(layer, score, size, n) {
      ScanFindsSpace(v, |v|, free, score, size, n);
    }
  }

  /** What one layer takes of a file as an eviction, or as all of a file that fits, it has room for. */
  lemma DecisionHasRoom(layer: LayerView, segmentSize: int, fileSize: int, score: real, fileLayer: int, lastLayer: int)
    ensures var d := DecisionOf(layer, segmentSize, fileSize, score, fileLayer, lastLayer);
            && (d.TakeAll? && fileSize <= segmentSize ==> HasRoom(layer, score, fileSize))
            && (d.Take? ==> HasRoom(layer, score, d.bytes))
  {
    var d := DecisionOf(layer, segmentSize, fileSize, score, fileLayer, lastLayer);
    var v := layer.victims;
    if d.TakeAll? && layer.free >= segmentSize as real {
      if fileSize <= segmentSize {
        assert Displaces(layer, score, fileSize, |v|);
      }
    } else if d.TakeAll? || d.Take? {
      var spared := Spared(v, |v|, layer.free.Floor, score, fileSize);
      SparedScoreLess(v, |v|, layer.free.Floor, score, fileSize);
      assert Displaces(layer, score, if d.TakeAll? then fileSize else d.bytes, spared);
    }
  }

  /** On one layer: taking the whole file is only ever decided with room for it exactly if the file
      is no larger than its key. The test compares the key, and the file is what is placed. */
  lemma TakesAllWithRoomIff(segmentSize: int, fileSize: int, score: real, fileLayer: int, lastLayer: int)
    requires segmentSize >= 0
    ensures (forall layer: LayerView ::
               layer.free >= 0.0 && DecisionOf(layer, segmentSize, fileSize, score, fileLayer, lastLayer).TakeAll? ==>
                 HasRoom(layer, score, fileSize))
            <==> fileSize <= segmentSize
  {
    forall layer: LayerView
      ensures DecisionOf(layer, segmentSize, fileSize, score, fileLayer, lastLayer).TakeAll? && fileSize <= segmentSize
              ==> HasRoom(layer, score, fileSize)
    {
      DecisionHasRoom(layer, segmentSize, fileSize, score, fileLayer, lastLayer);
    }
    if fileSize > segmentSize {
      var id := Min(fileLayer, lastLayer) - 1;
      var layer := LayerView(id, segmentSize as real, []);
      assert DecisionOf(layer, segmentSize, fileSize, score, fileLayer, lastLayer).TakeAll?;
      ScanIffRoom(layer, score, fileSize);
    }
  }

  /** The walk's first layer that does not pass the file on, if it takes all of it, has the space
      that an eviction would have asked for. */
  ghost predicate FitsWhereTaken(chain: seq<LayerView>, segmentSize: int, fileSize: int, score: real,
                                 fileLayer: int, lastLayer: int)
  {
    chain == [] ||
    match DecisionOf(chain[0], segmentSize, fileSize, score, fileLayer, lastLayer)
    case TakeAll => Space(chain[0].free, chain[0].victims, score, fileSize) >= fileSize
    case Skip => FitsWhereTaken(chain[1..], segmentSize, fileSize, score, fileLayer, lastLayer)
    case _ => true
  }

  lemma {:induction false} SmallFilesFit(chain: seq<LayerView>, segmentSize: int, fileSize: int, score: real,
                                         fileLayer: int, lastLayer: int)
    requires fileSize <= segmentSize
    ensures FitsWhereTaken(chain, segmentSize, fileSize, score, fileLayer, lastLayer)
    decreases |chain|
  {
    if chain != [] {
      DecisionHasRoom(chain[0], segmentSize, fileSize, score, fileLayer, lastLayer);
      ScanIffRoom(chain[0], score, fileSize);
      SmallFilesFit(chain[1..], segmentSize, fileSize, score, fileLayer, lastLayer);
    }
  }

  ghost predicate WithinRoom(plan: seq<Share>, chain: seq<LayerView>, score: real) {
    forall k :: 0 <= k < |chain| ==> GivesRoomy(plan, chain[k], score)
  }

  ghost predicate GivesRoomy(plan: seq<Share>, layer: LayerView, score: real) {
    Given(plan, layer.id) == 0 || HasRoom(layer, score, Given(plan, layer.id))
  }

  ghost predicate FreeIsFree(chain: seq<LayerView>) {
    forall k :: 0 <= k < |chain| ==> chain[k].free >= 0.0
  }

  /** What a layer outside the chain is given. */
  lemma {:induction false} NothingElsewhere(plan: seq<Share>, chain: seq<LayerView>, layer: int)
    requires Descends(plan, chain) && forall k :: 0 <= k < |chain| ==> chain[k].id != layer
    ensures Given(plan, layer) == 0
    decreases |chain|
  {
    if plan != [] {
      NothingElsewhere(if plan[0].layer == chain[0].id then plan[1..] else plan, chain[1..], layer);
    }
  }

  /** A share of the first layer in front of a plan for the others. */
  lemma SharesApart(share: Share, rest: seq<Share>, chain: seq<LayerView>, score: real)
    requires chain != [] && IdsRise(chain) && share.layer == chain[0].id && Descends(rest, chain[1..])
    ensures WithinRoom([share] + rest, chain, score) <==>
            (share.bytes == 0 || HasRoom(chain[0], score, share.bytes)) && WithinRoom(rest, chain[1..], score)
  {
    var plan := [share] + rest;
    assert plan[1..] == rest;
    NothingElsewhere(rest, chain[1..], chain[0].id);
    hide HasRoom, Descends;
    assert Given(plan, chain[0].id) == share.bytes;
    assert forall k :: 0 < k < |chain| ==> Given(plan, chain[k].id) == Given(rest, chain[k].id);
    assert forall k :: 0 <= k < |chain| - 1 ==> chain[1..][k] == chain[k + 1];
    if WithinRoom(plan, chain, score) {
      assert GivesRoomy(plan, chain[0], score);
      forall k | 0 <= k < |chain[1..]|
        ensures GivesRoomy(rest, chain[1..][k], score)
      {
        assert GivesRoomy(plan, chain[k + 1], score);
      }
    }
    if WithinRoom(rest, chain[1..], score) {
      forall k | 0 < k < |chain|
        ensures GivesRoomy(plan, chain[k], score)
      {
        assert GivesRoomy(rest, chain[1..][k - 1], score);
      }
    }
  }

  /** Nothing for the first layer. */
  lemma SharesBelow(rest: seq<Share>, chain: seq<LayerView>, score: real)
    requires chain != [] && IdsRise(chain) && Descends(rest, chain[1..])
    ensures WithinRoom(rest, chain, score) <==> WithinRoom(rest, chain[1..], score)
  {
    NothingElsewhere(rest, chain[1..], chain[0].id);
    hide HasRoom, Descends;
    assert forall k :: 0 <= k < |chain| - 1 ==> chain[1..][k] == chain[k + 1];
    if WithinRoom(rest, chain, score) {
      forall k | 0 <= k < |chain[1..]|
        ensures GivesRoomy(rest, chain[1..][k], score)
      {
        assert GivesRoomy(rest, chain[k + 1], score);
      }
    }
    if WithinRoom(rest, chain[1..], score) {
      forall k | 0 < k < |chain|
        ensures GivesRoomy(rest, chain[k], score)
      {
        assert GivesRoomy(rest, chain[1..][k - 1], score);
      }
    }
  }

  lemma ZeroHasRoom(layer: LayerView, score: real)
    requires layer.free >= 0.0
    ensures HasRoom(layer, score, 0)
  {
    assert Displaces(layer, score, 0, |layer.victims|);
  }

  /** A plan gives every layer no more than it has room for, exactly if the layer that takes the
      whole file, if one does, has the space for it. Evictions and splits never overfill a layer. */
  lemma {:induction false} PlanWithinRoomIff(chain: seq<LayerView>, segmentSize: int, fileSize: int, score: real,
                                             fileLayer: int, lastLayer: int)
    requires IdsRise(chain) && FreeIsFree(chain)
    ensures WithinRoom(Plan(chain, segmentSize, fileSize, score, fileLayer, lastLayer), chain, score)
            <==> FitsWhereTaken(chain, segmentSize, fileSize, score, fileLayer, lastLayer)
    decreases |chain|
  {
    if chain != [] {
      hide HasRoom, DecisionOf, WithinRoom, Descends;
      var rest := chain[1..];
      DecisionHasRoom(chain[0], segmentSize, fileSize, score, fileLayer, lastLayer);
      match DecisionOf(chain[0], segmentSize, fileSize, score, fileLayer, lastLayer)
      case Stop =>
        NothingWithinRoom(chain, score);
      case TakeAll =>
        EmptyDescends(rest);
        NothingWithinRoom(rest, score);
        SharesApart(Share(chain[0].id, fileSize), [], chain, score);
        ScanIffRoom(chain[0], score, fileSize);
        ZeroHasRoom(chain[0], score);
        assert [Share(chain[0].id, fileSize)] + [] == [Share(chain[0].id, fileSize)];
      case Take(n) =>
        PlanDescends(rest, fileSize - n, fileSize - n, score, fileLayer, lastLayer);
        PlanWithinRoomIff(rest, fileSize - n, fileSize - n, score, fileLayer, lastLayer);
        SmallFilesFit(rest, fileSize - n, fileSize - n, score, fileLayer, lastLayer);
        var tail := Plan(rest, fileSize - n, fileSize - n, score, fileLayer, lastLayer);
        SharesApart(Share(chain[0].id, n), tail, chain, score);
      case Skip =>
        PlanDescends(rest, segmentSize, fileSize, score, fileLayer, lastLayer);
        PlanWithinRoomIff(rest, segmentSize, fileSize, score, fileLayer, lastLayer);
        SharesBelow(Plan(rest, segmentSize, fileSize, score, fileLayer, lastLayer), chain, score);
    }
  }

  lemma NothingWithinRoom(chain: seq<LayerView>, score: real)
    ensures WithinRoom([], chain, score)
  {
  }

  lemma EmptyDescends(chain: seq<LayerView>)
    ensures Descends([], chain)
  {
  }

  /** No layer receives more bytes than its free space plus the bytes of lower-scored victims. */
  ghost predicate KeepsRoom(p: seq<Placement>, chain: seq<LayerView>, score: real) {
    forall k :: 0 <= k < |chain| ==>
      var bytes := BytesTo(p, chain[k].id); bytes == 0 || HasRoom(chain[k], score, bytes)
  }

  /** The room theorem for one decision on a chain with rising ids. */
  lemma DecisionKeepsRoomIff(chain: seq<LayerView>, segmentSize: int, file: PosixFile, index: int, score: real,
                             lastLayer: int, firstName: nat)
    requires file.GetSize() >= 0 && IdsRise(chain) && FreeIsFree(chain)
    ensures var plan := Plan(chain, segmentSize, file.GetSize(), score, file.layer, lastLayer);
            KeepsRoom(CarryOut(plan, file, index, score, file.layer == lastLayer, firstName).placements, chain, score)
            <==> FitsWhereTaken(chain, segmentSize, file.GetSize(), score, file.layer, lastLayer)
  {
    var plan := Plan(chain, segmentSize, file.GetSize(), score, file.layer, lastLayer);
    PlanIsAffordable(chain, segmentSize, file.GetSize(), score, file.layer, lastLayer);
    PlanWithinRoomIff(chain, segmentSize, file.GetSize(), score, file.layer, lastLayer);
    hide Plan, CarryOut, Affordable, HasRoom, FitsWhereTaken, IdsRise, FreeIsFree;
    var p := CarryOut(plan, file, index, score, file.layer == lastLayer, firstName).placements;
    forall k | 0 <= k < |chain|
      ensures BytesTo(p, chain[k].id) == Given(plan, chain[k].id)
    {
      LayersReceiveTheirShare(plan, file, index, score, file.layer == lastLayer, firstName, chain[k].id);
    }
    RoomOfShares(p, plan, chain, score);
  }

  lemma RoomOfShares(p: seq<Placement>, plan: seq<Share>, chain: seq<LayerView>, score: real)
    requires forall k :: 0 <= k < |chain| ==> BytesTo(p, chain[k].id) == Given(plan, chain[k].id)
    ensures KeepsRoom(p, chain, score) <==> WithinRoom(plan, chain, score)
  {
    hide HasRoom, BytesTo, Given;
    if KeepsRoom(p, chain, score) {
      forall k | 0 <= k < |chain|
        ensures GivesRoomy(plan, chain[k], score)
      {
      }
    }
    if WithinRoom(plan, chain, score) {
      forall k | 0 <= k < |chain|
        ensures BytesTo(p, chain[k].id) == 0 || HasRoom(chain[k], score, BytesTo(p, chain[k].id))
      {
        assert GivesRoomy(plan, chain[k], score);
      }
    }
  }

  /** A chain that a decision can meet: rising ids, no negative space, and the file's layer and the
      last one are on it. */
  ghost predicate Meets(chain: seq<LayerView>, fileLayer: int, lastLayer: int) {
    IdsRise(chain) && FreeIsFree(chain)
    && (exists k :: 0 <= k < |chain| && chain[k].id == fileLayer)
    && (exists k :: 0 <= k < |chain| && chain[k].id == lastLayer)
  }

  ghost predicate KeepsRoomOn(chain: seq<LayerView>, segmentSize: int, file: PosixFile, index: int, score: real,
                              lastLayer: int, firstName: nat)
  {
    var plan := Plan(chain, segmentSize, file.GetSize(), score, file.layer, lastLayer);
    KeepsRoom(CarryOut(plan, file, index, score, file.layer == lastLayer, firstName).placements, chain, score)
  }

  /** The room theorem for all chains: no decision about a file ever overfills a layer exactly if the
      file is no larger than the key that it is stored under. */
  lemma EveryDecisionKeepsRoomIff(segmentSize: int, file: PosixFile, index: int, score: real,
                                  lastLayer: int, firstName: nat)
    requires segmentSize >= 0 && file.GetSize() >= 0
    ensures (forall chain :: Meets(chain, file.layer, lastLayer) ==>
               KeepsRoomOn(chain, segmentSize, file, index, score, lastLayer, firstName))
            <==> file.GetSize() <= segmentSize
  {
    forall chain | Meets(chain, file.layer, lastLayer)
      ensures KeepsRoomOn(chain, segmentSize, file, index, score, lastLayer, firstName) <==>
              FitsWhereTaken(chain, segmentSize, file.GetSize(), score, file.layer, lastLayer)
      ensures file.GetSize() <= segmentSize ==>
                FitsWhereTaken(chain, segmentSize, file.GetSize(), score, file.layer, lastLayer)
    {
      DecisionKeepsRoomIff(chain, segmentSize, file, index, score, lastLayer, firstName);
      if file.GetSize() <= segmentSize {
        SmallFilesFit(chain, segmentSize, file.GetSize(), score, file.layer, lastLayer);
      }
    }
    if file.GetSize() > segmentSize {
      var chain := TightChain(segmentSize, file.layer, lastLayer);
      TightChainOverfills(segmentSize, file.GetSize(), score, file.layer, lastLayer);
    }
  }

  /** A layer above both with just the space that the key needs. */
  ghost function TightChain(segmentSize: int, fileLayer: int, lastLayer: int): seq<LayerView> {
    var low, high := Min(fileLayer, lastLayer), if fileLayer < lastLayer then lastLayer else fileLayer;
    [LayerView(low - 1, segmentSize as real, []), LayerView(low, 0.0, [])]
    + if low == high then [] else [LayerView(high, 0.0, [])]
  }

  lemma TightChainOverfills(segmentSize: int, fileSize: int, score: real, fileLayer: int, lastLayer: int)
    requires 0 <= segmentSize < fileSize
    ensures var chain := TightChain(segmentSize, fileLayer, lastLayer);
            Meets(chain, fileLayer, lastLayer)
            && !FitsWhereTaken(chain, segmentSize, fileSize, score, fileLayer, lastLayer)
  {
    var chain := TightChain(segmentSize, fileLayer, lastLayer);
    assert chain[1].id == Min(fileLayer, lastLayer);
    assert fileLayer != lastLayer ==> chain[2].id != chain[1].id;
    assert DecisionOf(chain[0], segmentSize, fileSize, score, fileLayer, lastLayer).TakeAll?;
  }

  // ----- on the chain of the configuration

  lemma {:induction false} ViewsAt(dpe: MaxBandwidthDPE, from: nat, layerScores: map<int, seq<Victim>>, k: nat)
    requires from + k < |dpe.config.chain|
    requires forall l :: l in dpe.config.chain ==> l.id in layerScores
    ensures var view := dpe.Views(from, layerScores)[k]; view.id == dpe.config.chain[from + k].id && view.free >= 0.0
    decreases k
  {
    if k > 0 {
      ViewsAt(dpe, from + 1, layerScores, k - 1);
    }
  }

  /** The layers of a chain that BuildLayers has built from at most 255 layers. */
  lemma BuiltChainRises(dpe: MaxBandwidthDPE, layerScores: map<int, seq<Victim>>)
    requires dpe.Valid() && dpe.config.Valid() && |dpe.config.chain| <= 255
    requires forall l :: l in dpe.config.chain ==> l.id in layerScores
    ensures var n, views := |dpe.config.chain|, dpe.Views(0, layerScores);
            && n > 0 && dpe.config.last.id == n && IdsRise(views) && FreeIsFree(views)
            && forall k :: 0 <= k < n ==> views[k].id == k + 1
  {
    var n, views := |dpe.config.chain|, dpe.Views(0, layerScores);
    forall k | 0 <= k < n
      ensures views[k].id == k + 1 && views[k].free >= 0.0
    {
      ViewsAt(dpe, 0, layerScores, k);
    }
  }

  /** From the first layer of a built chain on, data of a file on any layer only moves up. */
  lemma BuiltChainMovesUp(dpe: MaxBandwidthDPE, layerScores: map<int, seq<Victim>>, segmentSize: int,
                          file: PosixFile, index: int, score: real, firstName: nat)
    requires dpe.Valid() && dpe.config.Valid() && |dpe.config.chain| <= 255
    requires forall l :: l in dpe.config.chain ==> l.id in layerScores
    requires 1 <= file.layer <= |dpe.config.chain|
    ensures var views, lastLayer := dpe.Views(0, layerScores), dpe.config.last.id;
            var plan := Plan(views, segmentSize, file.GetSize(), score, file.layer, lastLayer);
            var p := CarryOut(plan, file, index, score, file.layer == lastLayer, firstName).placements;
            PlacedAbove(p, file.layer) && PlacedAbove(p, lastLayer)
  {
    hide Plan, CarryOut, PlacedAbove;
    BuiltChainRises(dpe, layerScores);
    var n, views := |dpe.config.chain|, dpe.Views(0, layerScores);
    DataOnlyMovesUp(views, segmentSize, file, index, score, dpe.config.last.id, firstName, file.layer - 1);
    DataOnlyMovesUp(views, segmentSize, file, index, score, dpe.config.last.id, firstName, n - 1);
  }

  /** And no layer is overfilled exactly if the one that takes the whole file has the space for it,
      which it has if the file is no larger than its key. */
  lemma BuiltChainKeepsRoomIff(dpe: MaxBandwidthDPE, layerScores: map<int, seq<Victim>>, segmentSize: int,
                               file: PosixFile, index: int, score: real, firstName: nat)
    requires dpe.Valid() && dpe.config.Valid() && |dpe.config.chain| <= 255
    requires forall l :: l in dpe.config.chain ==> l.id in layerScores
    requires file.GetSize() >= 0
    ensures var views, lastLayer := dpe.Views(0, layerScores), dpe.config.last.id;
            && (KeepsRoomOn(views, segmentSize, file, index, score, lastLayer, firstName)
                <==> FitsWhereTaken(views, segmentSize, file.GetSize(), score, file.layer, lastLayer))
            && (file.GetSize() <= segmentSize ==>
                  FitsWhereTaken(views, segmentSize, file.GetSize(), score, file.layer, lastLayer))
  {
    hide Plan, CarryOut, KeepsRoom, FitsWhereTaken, IdsRise, FreeIsFree;
    BuiltChainRises(dpe, layerScores);
    var views, lastLayer := dpe.Views(0, layerScores), dpe.config.last.id;
    DecisionKeepsRoomIff(views, segmentSize, file, index, score, lastLayer, firstName);
    if file.GetSize() <= segmentSize {
      SmallFilesFit(views, segmentSize, file.GetSize(), score, file.layer, lastLayer);
    }
  }

  // ----- buffer names

  /** The destinations are files numbered from firstName on, or all the same file. */
  ghost predicate Named(p: seq<Placement>, fromLast: bool, firstName: nat, filename: string) {
    forall i: nat :: i < |p| ==> p[i].destination.filename == NameAt(fromLast, firstName, filename, i)
  }

  ghost function NameAt(fromLast: bool, firstName: nat, filename: string, i: nat): string {
    if fromLast then BufferName(firstName + i) else filename
  }

  lemma NamedConcat(p: seq<Placement>, q: seq<Placement>, fromLast: bool, firstName: nat, filename: string)
    requires Named(p, fromLast, firstName, filename)
    requires Named(q, fromLast, firstName + if fromLast then |p| else 0, filename)
    ensures Named(p + q, fromLast, firstName, filename)
  {
    forall i: nat | i < |p + q|
      ensures (p + q)[i].destination.filename == NameAt(fromLast, firstName, filename, i)
    {
      if i >= |p| {
        assert (p + q)[i] == q[i - |p|];
      }
    }
  }

  lemma {:induction false} PlacedNames(source: PosixFile, destination: PosixFile, score: real, fromLast: bool,
                                       firstName: nat)
    ensures Named(Placed(source, destination, score, fromLast, firstName), fromLast, firstName, destination.filename)
    decreases destination.GetSize()
  {
    if destination.GetSize() > 0 {
      var p := Placed(source, destination, score, fromLast, firstName);
      var rest := Placed(Back(source, SEGMENT_SIZE), Back(destination, SEGMENT_SIZE), score, fromLast, firstName + 1);
      assert p == [p[0]] + rest;
      PlacedNames(Back(source, SEGMENT_SIZE), Back(destination, SEGMENT_SIZE), score, fromLast, firstName + 1);
      if !fromLast {
        NothingNamed(rest, firstName + 1, firstName, destination.filename);
      }
      NamedConcat([p[0]], rest, fromLast, firstName, destination.filename);
    }
  }

  /** Numbers play no part when data keeps its file. */
  lemma NothingNamed(p: seq<Placement>, a: nat, b: nat, filename: string)
    requires Named(p, false, a, filename)
    ensures Named(p, false, b, filename)
  {
    forall i: nat | i < |p|
      ensures p[i].destination.filename == NameAt(false, b, filename, i)
    {
      assert p[i].destination.filename == NameAt(false, a, filename, i);
    }
  }

  /** Data fetched from the last layer goes to files numbered without gaps from the first unused
      number on; other data keeps its file. */
  lemma {:induction false} PlacementNames(plan: seq<Share>, file: PosixFile, index: int, score: real, fromLast: bool,
                                          firstName: nat)
    ensures var out := CarryOut(plan, file, index, score, fromLast, firstName);
            && out.nextName == firstName + (if fromLast then |out.placements| else 0)
            && Named(out.placements, fromLast, firstName, file.filename)
    decreases |plan|
  {
    if plan != [] {
      var n := plan[0].bytes;
      var front, back, mid := Front(file, n), Back(file, n), file.segment.start + n;
      var first := PlaceShare(front, plan[0].layer, index, score, fromLast, firstName);
      var others := CarryOut(plan[1..], back, mid, score, fromLast, first.nextName);
      PlacedNames(SourceOf(front, index), DestinationOf(front, plan[0].layer), score, fromLast, firstName);
      PlacementNames(plan[1..], back, mid, score, fromLast, first.nextName);
      NamedConcat(first.placements, others.placements, fromLast, firstName, file.filename);
    }
  }

  /** So no two fetched pieces ever share a buffer file, within one decision or across decisions. */
  lemma BufferFilesAreDistinct(plan: seq<Share>, file: PosixFile, index: int, score: real, firstName: nat,
                               plan': seq<Share>, file': PosixFile, index': int, score': real, firstName': nat)
    requires firstName' >= CarryOut(plan, file, index, score, true, firstName).nextName
    ensures var p := CarryOut(plan, file, index, score, true, firstName).placements;
            var q := CarryOut(plan', file', index', score', true, firstName').placements;
            && (forall i, j :: 0 <= i < j < |p| ==> p[i].destination.filename != p[j].destination.filename)
            && (forall i, j :: 0 <= i < |p| && 0 <= j < |q| ==> p[i].destination.filename != q[j].destination.filename)
  {
    var p := CarryOut(plan, file, index, score, true, firstName).placements;
    var q := CarryOut(plan', file', index', score', true, firstName').placements;
    PlacementNames(plan, file, index, score, true, firstName);
    PlacementNames(plan', file', index', score', true, firstName');
    forall a: nat, b: nat | BufferName(a) == BufferName(b)
      ensures a == b
    {
      BufferNamesDiffer(a, b);
    }
    forall i, j | 0 <= i < j < |p|
      ensures p[i].destination.filename != p[j].destination.filename
    {
      assert p[i].destination.filename == NameAt(true, firstName, file.filename, i);
      assert p[j].destination.filename == NameAt(true, firstName, file.filename, j);
    }
    forall i, j | 0 <= i < |p| && 0 <= j < |q|
      ensures p[i].destination.filename != q[j].destination.filename
    {
      assert p[i].destination.filename == NameAt(true, firstName, file.filename, i);
      assert q[j].destination.filename == NameAt(true, firstName', file'.filename, j);
    }
  }
}
