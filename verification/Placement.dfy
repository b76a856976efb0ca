/** The maximum-bandwidth placement engine: a file's bytes are pushed down the layer chain,
    split where a layer has room for a part of them, and cut into bounded pieces. */
module Placement {

  import opened Segments
  import opened Layers
  import DecimalFormat

  const SEGMENT_SIZE: int := 16 * 1024 * 1024

  /** -1 * (largest double - 1), which in double arithmetic is minus the largest double. */
  const LOWEST_SCORE: real := -179769313486231570814527423731704356798070567525844996598917476803157260780028538760589558632766878171540458953514382464234321326889464182768467546703537516986049910576551282076245490090389328944075868508455133942304583236903222948165808559332123347764797926204144723168738177180919299881250404026184124858368.0

  /** Conversion to a 32-bit signed integer. */
  function Int32(x: int): (y: int)
    ensures -0x8000_0000 <= y < 0x8000_0000
    ensures -0x8000_0000 <= x < 0x8000_0000 ==> y == x
  {
    (x + 0x8000_0000) % 0x1_0000_0000 - 0x8000_0000
  }

  /** Division and remainder that truncate toward zero. */
  function Quotient(a: int, b: int): int
    requires b > 0
  {
    if a >= 0 then a / b else -((-a) / b)
  }

  function Remainder(a: int, b: int): int
    requires b > 0
  {
    a - Quotient(a, b) * b
  }

  function Min(a: int, b: int): int {
    if a < b then a else b
  }

  // ----- cutting into pieces

  /** The size of n full pieces. */
  function FullPieces(n: nat): nat {
    n * 0x100_0000
  }

  /** The number of pieces for n bytes: n / SEGMENT_SIZE, rounded up. */
  function PartCount(n: nat): (count: nat)
    ensures n <= FullPieces(count) < n + SEGMENT_SIZE
  {
    (n + 0xFF_FFFF) / 0x100_0000
  }

  /** Piece i of s: SEGMENT_SIZE bytes, or whatever is left of s. */
  function Piece(s: Segment, i: nat): Segment {
    Segment(s.start + FullPieces(i), Min(s.start + FullPieces(i + 1) - 1, s.end))
  }

  /** Buffer files are named by a running number: the name that is given after n others. */
  function BufferName(n: nat): string {
    DecimalFormat.Decimal(n + 1) + ".hfetch"
  }

  lemma BufferNamesDiffer(a: nat, b: nat)
    requires BufferName(a) == BufferName(b)
    ensures a == b
  {
    var x, y := DecimalFormat.Decimal(a + 1), DecimalFormat.Decimal(b + 1);
    assert |BufferName(a)| == |x| + 7 && |BufferName(b)| == |y| + 7;
    assert x == BufferName(a)[..|x|] && y == BufferName(b)[..|x|];
    DecimalFormat.DecimalInjective(a + 1, b + 1);
  }

  /** With generated names every piece is a new file and restarts where the segment starts;
      without, the pieces follow each other inside the file. */
  function Part(file: PosixFile, generateName: bool, firstName: nat, i: nat): PosixFile {
    var piece := Piece(file.segment, i);
    if generateName
    then PosixFile(BufferName(firstName + i),
                   Segment(file.segment.start, file.segment.start + piece.GetSize() - 1), file.layer)
    else file.(segment := piece)
  }

  /** 32-bit arithmetic on the segment is exact. */
  predicate Fits(s: Segment) {
    && 0 <= s.GetSize() < 0x8000_0000
    && -0x8000_0000 <= s.start && s.end < 0x8000_0000
  }

  /** The segments follow each other from `start` on and are not empty. */
  ghost predicate Consecutive(s: seq<Segment>, start: int) {
    && (s != [] ==> s[0].start == start)
    && (forall i :: 0 <= i < |s| ==> s[i].Nonempty())
    && (forall i :: 0 < i < |s| ==> s[i].start == s[i - 1].end + 1)
  }

  /** No gap, no overlap, nothing missing. */
  ghost predicate Tiles(s: seq<Segment>, whole: Segment) {
    && Consecutive(s, whole.start)
    && (if s == [] then whole.start - 1 else s[|s| - 1].end) == whole.end
  }

  ghost function SegmentsOf(files: seq<PosixFile>): (s: seq<Segment>)
    ensures |s| == |files| && forall i :: 0 <= i < |s| ==> s[i] == files[i].segment
  {
    seq(|files|, i requires 0 <= i < |files| => files[i].segment)
  }

  /** The pieces are those of the file, in order. */
  ghost predicate IsParts(pieces: seq<PosixFile>, file: PosixFile, generateName: bool, firstName: nat) {
    && file.GetSize() >= 0
    && |pieces| == PartCount(file.GetSize())
    && forall i :: 0 <= i < |pieces| ==> pieces[i] == Part(file, generateName, firstName, i)
  }

  lemma PartsTile(file: PosixFile, pieces: seq<PosixFile>)
    requires IsParts(pieces, file, false, 0)
    ensures Tiles(SegmentsOf(pieces), file.segment)
    ensures forall i :: 0 <= i < |pieces| ==> 1 <= pieces[i].GetSize() <= SEGMENT_SIZE
  {
  }

  // ----- what the engine is meant to do, on values

  /** Data already on a layer, with the score it is kept for. */
  datatype Victim = Victim(score: real, source: PosixFile, buffered: PosixFile)

  /** One bounded read from `source` into `destination`. */
  datatype Placement = Placement(source: PosixFile, destination: PosixFile, score: real)

  /** All that a placement decision looks at on one layer; victims by falling score. */
  datatype LayerView = LayerView(id: int, free: real, victims: seq<Victim>)

  /** The next so many bytes of the file go to the layer. */
  datatype Share = Share(layer: int, bytes: int)

  /** Free bytes of a layer whose capacity is given in megabytes. */
  function Remaining(capacityMb: real, used: real): (free: real)
    ensures free >= 0.0 && free + used >= 1024.0 * 1024.0 * capacityMb
    ensures free > 0.0 ==> free + used == 1024.0 * 1024.0 * capacityMb
  {
    var remaining := capacityMb * 1048576.0 - used;
    if remaining < 0.0 then 0.0 else remaining
  }

  /** The lowest score on the layer; nothing may be placed by eviction unless it beats it. */
  function MinScore(victims: seq<Victim>): real {
    if victims == [] then LOWEST_SCORE else victims[|victims| - 1].score
  }

  predicate IsAllowed(score: real, minScore: real, maxScore: real) {
    score > minScore
  }

  /** Victims are taken from the low end while they score less and space is short:
      the first n of them are spared. */
  ghost function Spared(victims: seq<Victim>, n: nat, space: int, score: real, size: int): (spared: nat)
    requires n <= |victims|
    ensures spared <= n
  {
    if n > 0 && victims[n - 1].score < score && space < size
    then Spared(victims, n - 1, space + victims[n - 1].buffered.GetSize(), score, size)
    else n
  }

  /** Bytes of the victims from position `spared` up to n. */
  ghost function BytesFrom(victims: seq<Victim>, spared: nat, n: nat): int
    requires spared <= n <= |victims|
    decreases n - spared
  {
    if spared == n then 0 else victims[spared].buffered.GetSize() + BytesFrom(victims, spared + 1, n)
  }

  /** Free space and the victims' bytes together. */
  ghost function Space(free: real, victims: seq<Victim>, score: real, size: int): int {
    var spared := Spared(victims, |victims|, free.Floor, score, size);
    free.Floor + BytesFrom(victims, spared, |victims|)
  }

  /** What one layer makes of a file: the walk stops, the layer takes all of it, or the first
      so many bytes, or nothing. */
  datatype Decision = Stop | TakeAll | Take(bytes: int) | Skip

  /** The segment size decides whether the layer has room, the file size how much it takes. */
  ghost function DecisionOf(layer: LayerView, segmentSize: int, fileSize: int, score: real,
                            fileLayer: int, lastLayer: int): Decision
  {
    if layer.id == fileLayer || layer.id == lastLayer then Stop
    else if layer.free >= segmentSize as real then TakeAll
    else if score > MinScore(layer.victims) then
      var space := Space(layer.free, layer.victims, score, fileSize);
      if space <= 0 then Stop else if space >= fileSize then TakeAll else Take(space)
    else Skip
  }

  // ----- the choices, told from the layers

  /** The data is on the layer already, or it is the last one, to which nothing is fetched. */
  predicate StopsAt(layer: LayerView, fileLayer: int, lastLayer: int) {
    layer.id == fileLayer || layer.id == lastLayer
  }

  /** Not enough free space for the key, and nothing on the layer that scores less than the data. A layer with
      nothing on it is only passed over for data of the lowest score there is. */
  ghost predicate PassedOver(layer: LayerView, segmentSize: int, score: real) {
    && layer.free < segmentSize as real
    && (forall k :: 0 <= k < |layer.victims| ==> layer.victims[k].score >= score)
    && (layer.victims == [] ==> score <= LOWEST_SCORE)
  }

  /** The bytes of those of the first n victims that score less than the data. */
  ghost function LowerBytes(victims: seq<Victim>, n: nat, score: real): int
    requires n <= |victims|
  {
    if n == 0 then 0 else
      LowerBytes(victims, n - 1, score)
      + if victims[n - 1].score < score then victims[n - 1].buffered.GetSize() else 0
  }

  /** What the layer can offer: its free bytes, and those of all that scores less than the data. */
  ghost function Offer(layer: LayerView, score: real): int {
    layer.free.Floor + LowerBytes(layer.victims, |layer.victims|, score)
  }

  /** Victims by falling score, none of negative size. */
  ghost predicate WellKept(victims: seq<Victim>) {
    && (forall k, l :: 0 <= k < l < |victims| ==> victims[k].score >= victims[l].score)
    && (forall k :: 0 <= k < |victims| ==> victims[k].buffered.GetSize() >= 0)
  }

  /** The decision that a layer is due. */
  ghost predicate IsDue(d: Decision, layer: LayerView, segmentSize: int, fileSize: int, score: real,
                        fileLayer: int, lastLayer: int)
  {
    var fits, offer := layer.free >= segmentSize as real, Offer(layer, score);
    if StopsAt(layer, fileLayer, lastLayer) then d == Stop
    else if fits then d == TakeAll
    else if PassedOver(layer, segmentSize, score) then d == Skip
    else d == if offer <= 0 then Stop else if offer < fileSize then Take(offer) else TakeAll
  }

  lemma {:induction false} BytesFromEnd(victims: seq<Victim>, m: nat, n: nat)
    requires m < n <= |victims|
    ensures BytesFrom(victims, m, n) == BytesFrom(victims, m, n - 1) + victims[n - 1].buffered.GetSize()
    decreases n - m
  {
    if m < n - 1 {
      BytesFromEnd(victims, m + 1, n);
    }
  }

  lemma {:induction false} NoLowerBytes(victims: seq<Victim>, n: nat, score: real)
    requires n <= |victims| && forall k :: 0 <= k < n ==> victims[k].score >= score
    ensures LowerBytes(victims, n, score) == 0
  {
    if n > 0 {
      NoLowerBytes(victims, n - 1, score);
    }
  }

  lemma {:induction false} SomeLowerBytes(victims: seq<Victim>, n: nat, score: real)
    requires n <= |victims| && WellKept(victims)
    ensures LowerBytes(victims, n, score) >= 0
  {
    if n > 0 {
      SomeLowerBytes(victims, n - 1, score);
    }
  }

  /** The scan finds what there is to offer, or enough of it. */
  lemma {:induction false} ScanFindsOffer(victims: seq<Victim>, n: nat, space: int, score: real, size: int)
    requires n <= |victims| && WellKept(victims)
    ensures var found := space + BytesFrom(victims, Spared(victims, n, space, score, size), n);
            var offer := space + LowerBytes(victims, n, score);
            space <= found <= offer && (found < size ==> found == offer)
  {
    SomeLowerBytes(victims, n, score);
    if n > 0 && victims[n - 1].score < score && space < size {
      var next := space + victims[n - 1].buffered.GetSize();
      ScanFindsOffer(victims, n - 1, next, score, size);
      BytesFromEnd(victims, Spared(victims, n - 1, next, score, size), n);
    } else if space < size {
      NoLowerBytes(victims, n, score);
    }
  }

  /** Every decision about a nonempty file is the one that the layer is due. */
  lemma DecisionIsDue(layer: LayerView, segmentSize: int, fileSize: int, score: real, fileLayer: int, lastLayer: int)
    requires WellKept(layer.victims) && fileSize > 0
    ensures IsDue(DecisionOf(layer, segmentSize, fileSize, score, fileLayer, lastLayer), layer, segmentSize, fileSize,
                  score, fileLayer, lastLayer)
  {
    ScanFindsOffer(layer.victims, |layer.victims|, layer.free.Floor, score, fileSize);
  }

  /** How the bytes of a file are shared out over the layers from the top of `chain` down. */
  ghost function Plan(chain: seq<LayerView>, segmentSize: int, fileSize: int, score: real,
                      fileLayer: int, lastLayer: int): seq<Share>
  {
    if chain == [] then [] else
      match DecisionOf(chain[0], segmentSize, fileSize, score, fileLayer, lastLayer)
      case Stop => []
      case TakeAll => [Share(chain[0].id, fileSize)]
      case Take(n) =>
        [Share(chain[0].id, n)] + Plan(chain[1..], fileSize - n, fileSize - n, score, fileLayer, lastLayer)
      case Skip => Plan(chain[1..], segmentSize, fileSize, score, fileLayer, lastLayer)
  }

  /** The first n bytes of a file, and the rest. */
  function Front(file: PosixFile, n: int): PosixFile {
    file.(segment := Segment(file.segment.start, file.segment.start + n - 1))
  }

  function Back(file: PosixFile, n: int): PosixFile {
    file.(segment := Segment(file.segment.start + n, file.segment.end))
  }

  function Split(file: PosixFile, remainingCapacity: int): seq<PosixFile> {
    [Front(file, remainingCapacity), Back(file, remainingCapacity)]
  }

  /** The pieces a file is read from when its bytes are taken to start at `index` ... */
  function SourceOf(file: PosixFile, index: int): PosixFile {
    file.(segment := Segment(index, file.segment.end))
  }

  /** ... and the file its bytes go to. */
  function DestinationOf(file: PosixFile, layer: int): PosixFile {
    file.(layer := layer, segment := Segment(0, file.GetSize() - 1))
  }

  /** The pieces that a source and its destination are cut into side by side, as long as there
      is destination left. */
  function Placed(source: PosixFile, destination: PosixFile, score: real, fromLast: bool,
                  firstName: nat): seq<Placement>
    decreases destination.GetSize()
  {
    if destination.GetSize() <= 0 then [] else
      var n := Min(destination.GetSize(), SEGMENT_SIZE);
      var piece := if fromLast
                   then PosixFile(BufferName(firstName), Segment(0, n - 1), destination.layer)
                   else Front(destination, n);
      [Placement(Front(source, Min(source.GetSize(), SEGMENT_SIZE)), piece, score)] +
      Placed(Back(source, SEGMENT_SIZE), Back(destination, SEGMENT_SIZE), score, fromLast, firstName + 1)
  }

  /** The placements made, and the next unused buffer name. */
  datatype Outcome = Outcome(placements: seq<Placement>, nextName: nat)

  ghost function PlaceShare(file: PosixFile, layer: int, index: int, score: real, fromLast: bool,
                            firstName: nat): Outcome {
    var placements := Placed(SourceOf(file, index), DestinationOf(file, layer), score, fromLast, firstName);
    Outcome(placements, firstName + if fromLast then |placements| else 0)
  }

  /** The first share is served from the front of the file, the others from what is left. */
  ghost function CarryOut(plan: seq<Share>, file: PosixFile, index: int, score: real,
                          fromLast: bool, firstName: nat): Outcome
    decreases |plan|
  {
    if plan == [] then Outcome([], firstName) else
      var n := plan[0].bytes;
      var first := PlaceShare(Front(file, n), plan[0].layer, index, score, fromLast, firstName);
      var others := CarryOut(plan[1..], Back(file, n), file.segment.start + n, score, fromLast, first.nextName);
      Outcome(first.placements + others.placements, others.nextName)
  }

  /** The shares fit the file: none is negative and together they do not exceed it. */
  ghost predicate Affordable(plan: seq<Share>, size: int) {
    size >= 0 && (plan != [] ==> 0 <= plan[0].bytes <= size && Affordable(plan[1..], size - plan[0].bytes))
  }

  lemma {:induction false} PlanIsAffordable(chain: seq<LayerView>, segmentSize: int, fileSize: int, score: real,
                                            fileLayer: int, lastLayer: int)
    requires fileSize >= 0
    ensures Affordable(Plan(chain, segmentSize, fileSize, score, fileLayer, lastLayer), fileSize)
    decreases |chain|
  {
    if chain != [] {
      PlanIsAffordable(chain[1..], segmentSize, fileSize, score, fileLayer, lastLayer);
      var space := Space(chain[0].free, chain[0].victims, score, fileSize);
      if 0 < space < fileSize {
        PlanIsAffordable(chain[1..], fileSize - space, fileSize - space, score, fileLayer, lastLayer);
      }
    }
  }

  /** Where the loop of SplitInParts stands before piece i. */
  ghost predicate AtPiece(file: PosixFile, generateName: bool, i: nat, originalIndex: int, leftSize: int) {
    && leftSize == file.GetSize() - FullPieces(i)
    && originalIndex == file.segment.start + (if generateName then 0 else FullPieces(i))
    && InInt32(Segment(originalIndex, originalIndex))
  }

  ghost predicate InInt32(s: Segment) {
    -0x8000_0000 <= s.start && s.end < 0x8000_0000
  }

  /** The number of parts as SplitInParts computes it, for any size. */
  function PartsMade(size: int): int {
    Int32(Int32(Quotient(size, SEGMENT_SIZE)) + if Remainder(size, SEGMENT_SIZE) == 0 then 0 else 1)
  }

  lemma CountIsExact(n: nat)
    requires n < 0x8000_0000
    ensures PartsMade(n) == PartCount(n)
  {
  }

  /** PlaceDataInLayer pairs each part of the destination with one of the source, which is smaller by the bytes
      that its index is past the start of the segment: there are enough of these exactly if the last part of the
      file is not used up, or the file is one part and the source has a negative size of less than one part. */
  lemma PairsInRangeIff(size: int, past: int)
    requires 0 < size < 0x8000_0000 && 0 <= past < 0x8000_0000
    ensures PartsMade(size) <= PartsMade(size - past) <==>
            past <= (size - 1) % SEGMENT_SIZE || (size <= SEGMENT_SIZE && size < past < size + SEGMENT_SIZE)
  {
    CountIsExact(size);
    if past <= size {
      CountIsExact(size - past);
    }
  }

  lemma PieceIsExact(file: PosixFile, generateName: bool, firstName: nat, i: nat,
                     originalIndex: int, leftSize: int, piece: PosixFile)
    requires Fits(file.segment) && i < PartCount(file.GetSize())
    requires AtPiece(file, generateName, i, originalIndex, leftSize)
    requires piece == PosixFile(if generateName then BufferName(firstName + i) else file.filename,
                                CutFrom(originalIndex, leftSize), file.layer)
    ensures piece == Part(file, generateName, firstName, i)
    ensures i + 1 < PartCount(file.GetSize()) ==>
              AtPiece(file, generateName, i + 1,
                      if generateName then originalIndex else Int32(piece.segment.end + 1),
                      Int32(leftSize - piece.GetSize()))
  {
  }

  /** The next piece as the loop computes it, in int arithmetic. */
  function CutFrom(originalIndex: int, leftSize: int): Segment {
    Segment(originalIndex, Int32(originalIndex + (if leftSize < SEGMENT_SIZE then leftSize else SEGMENT_SIZE) - 1))
  }

  /** The truncations to int in SplitInParts are harmless exactly when the segment fits: only
      then do the pieces, all of which have int offsets, tile it. */
  lemma TilesIffFits(file: PosixFile, pieces: seq<PosixFile>)
    requires 0 < file.GetSize() < 0x8000_0000
    requires forall k :: 0 <= k < |pieces| ==> InInt32(pieces[k].segment)
    requires Fits(file.segment) ==> IsParts(pieces, file, false, 0)
    ensures Tiles(SegmentsOf(pieces), file.segment) <==> Fits(file.segment)
  {
    if Fits(file.segment) {
      PartsTile(file, pieces);
    }
    if Tiles(SegmentsOf(pieces), file.segment) {
      var s := SegmentsOf(pieces);
      assert s != [];
      assert s[0].start == file.segment.start && s[|s| - 1].end == file.segment.end;
      assert InInt32(pieces[0].segment) && InInt32(pieces[|s| - 1].segment);
    }
  }

  /** Ten bytes from offset 2^31 on make one part, of the bytes from -2^31 on. */
  lemma FarPartIsElsewhere(file: PosixFile)
    requires file.segment == Segment(0x8000_0000, 0x8000_0009)
    ensures var part := file.(segment := CutFrom(Int32(file.segment.start), Int32(file.GetSize())));
            && PartsMade(file.GetSize()) == 1 && part.segment == Segment(-0x8000_0000, -0x7FFF_FFF7)
            && !Tiles(SegmentsOf([part]), file.segment)
  {
    var part := file.(segment := CutFrom(Int32(file.segment.start), Int32(file.GetSize())));
    CountIsExact(10);
    TilesIffFits(file, [part]);
  }

  lemma PartCountMonotone(a: nat, b: nat)
    requires a <= b
    ensures PartCount(a) <= PartCount(b)
  {
  }

  lemma CarryOutNothing(file: PosixFile, index: int, score: real, fromLast: bool, firstName: nat)
    ensures CarryOut([], file, index, score, fromLast, firstName) == Outcome([], firstName)
  {
  }

  /** A share for the whole file leaves nothing to place. */
  lemma CarryOutAll(file: PosixFile, index: int, score: real, layer: int, fromLast: bool, firstName: nat)
    ensures CarryOut([Share(layer, file.GetSize())], file, index, score, fromLast, firstName) ==
            PlaceShare(file, layer, index, score, fromLast, firstName)
  {
    assert Front(file, file.GetSize()) == file;
  }

  /** One share, then the others from where it ended. */
  lemma CarryOutFirst(file: PosixFile, index: int, score: real, share: Share, rest: seq<Share>,
                      fromLast: bool, firstName: nat, first: Outcome, others: Outcome)
    requires first == PlaceShare(Front(file, share.bytes), share.layer, index, score, fromLast, firstName)
    requires others == CarryOut(rest, Back(file, share.bytes), file.segment.start + share.bytes, score, fromLast,
                                first.nextName)
    ensures CarryOut([share] + rest, file, index, score, fromLast, firstName) ==
            Outcome(first.placements + others.placements, others.nextName)
  {
    assert ([share] + rest)[1..] == rest;
  }

  lemma {:induction false} PlacedCount(source: PosixFile, destination: PosixFile, score: real, fromLast: bool,
                                       firstName: nat)
    requires destination.GetSize() >= 0
    ensures |Placed(source, destination, score, fromLast, firstName)| == PartCount(destination.GetSize())
    decreases destination.GetSize()
  {
    if destination.GetSize() > SEGMENT_SIZE {
      PlacedCount(Back(source, SEGMENT_SIZE), Back(destination, SEGMENT_SIZE), score, fromLast, firstName + 1);
    }
  }

  /** Piece i of a destination. */
  ghost function PlacedPiece(destination: PosixFile, fromLast: bool, firstName: nat, i: nat): PosixFile {
    var piece := Piece(destination.segment, i);
    if fromLast then PosixFile(BufferName(firstName + i), Segment(0, piece.GetSize() - 1), destination.layer)
    else destination.(segment := piece)
  }

  lemma {:induction false} PlacedAt(source: PosixFile, destination: PosixFile, score: real, fromLast: bool,
                                    firstName: nat, i: nat)
    requires 0 <= destination.GetSize() <= source.GetSize() && i < PartCount(destination.GetSize())
    ensures i < |Placed(source, destination, score, fromLast, firstName)|
    ensures Placed(source, destination, score, fromLast, firstName)[i] ==
            Placement(source.(segment := Piece(source.segment, i)),
                      PlacedPiece(destination, fromLast, firstName, i), score)
    decreases i
  {
    PlacedCount(source, destination, score, fromLast, firstName);
    if i > 0 {
      PlacedAt(Back(source, SEGMENT_SIZE), Back(destination, SEGMENT_SIZE), score, fromLast, firstName + 1, i - 1);
    }
  }

  /** Side-by-side cutting is what SplitInParts does to each side. */
  lemma PlacedIs(source: PosixFile, destination: PosixFile, score: real, fromLast: bool, firstName: nat,
                 placements: seq<Placement>)
    requires 0 <= destination.GetSize() <= source.GetSize() && destination.segment.start == 0
    requires |placements| == PartCount(destination.GetSize())
    requires forall i :: 0 <= i < |placements| ==>
               placements[i] == Placement(Part(source, false, 0, i), Part(destination, fromLast, firstName, i), score)
    ensures placements == Placed(source, destination, score, fromLast, firstName)
  {
    PlacedCount(source, destination, score, fromLast, firstName);
    forall i | 0 <= i < |placements|
      ensures placements[i] == Placed(source, destination, score, fromLast, firstName)[i]
    {
      PlacedAt(source, destination, score, fromLast, firstName, i);
    }
  }

  class MaxBandwidthDPE {
    const config: ConfigurationManager
    const usage: int -> real  // bytes in use on a layer, as its client reports them
    var fileIdSeq: nat

    constructor (config: ConfigurationManager, usage: int -> real)
      ensures this.config == config && this.usage == usage
    {
      this.config, this.usage, fileIdSeq := config, usage, 0;
    }

    ghost predicate Valid()
      reads config, config.chain
    {
      config.Chained() && config.last != null
    }

    method GenerateBufferFilename() returns (name: string)
      modifies this
      ensures name == BufferName(old(fileIdSeq)) && fileIdSeq == old(fileIdSeq) + 1
    {
      fileIdSeq := fileIdSeq + 1;
      name := DecimalFormat.Decimal(fileIdSeq) + ".hfetch";
    }

    method SplitInParts(file: PosixFile, generateName: bool) returns (pieces: seq<PosixFile>)
      modifies this
      ensures Fits(file.segment) ==> IsParts(pieces, file, generateName, if generateName then old(fileIdSeq) else 0)
      ensures forall k :: 0 <= k < |pieces| ==> InInt32(pieces[k].segment)
      ensures |pieces| == if PartsMade(file.GetSize()) < 0 then 0 else PartsMade(file.GetSize())
      ensures fileIdSeq == old(fileIdSeq) + if generateName then |pieces| else 0
    {
      var parts := Int32(Quotient(file.GetSize(), SEGMENT_SIZE));
      parts := Int32(parts + if Remainder(file.GetSize(), SEGMENT_SIZE) == 0 then 0 else 1);
      var originalIndex := Int32(file.segment.start);
      var leftSize := Int32(file.GetSize());
      pieces := [];
      ghost var firstName := if generateName then fileIdSeq else 0;
      ghost var fits := Fits(file.segment);
      if fits {
        CountIsExact(file.GetSize());
      }
      for i := 0 to if parts < 0 then 0 else parts
        invariant |pieces| == i && fileIdSeq == old(fileIdSeq) + if generateName then i else 0
        invariant fits && i < parts ==> AtPiece(file, generateName, i, originalIndex, leftSize)
        invariant fits ==> forall k :: 0 <= k < i ==> pieces[k] == Part(file, generateName, firstName, k)
        invariant forall k :: 0 <= k < i ==> InInt32(pieces[k].segment)
        invariant InInt32(Segment(originalIndex, originalIndex))
      {
        var piece;
        piece, originalIndex, leftSize := CutPiece(file, generateName, originalIndex, leftSize, firstName, i);
        pieces := pieces + [piece];
      }
    }

    /** One round of the loop of SplitInParts. */
    method CutPiece(file: PosixFile, generateName: bool, originalIndex: int, leftSize: int,
                    ghost firstName: nat, ghost i: nat)
      returns (piece: PosixFile, newIndex: int, newLeft: int)
      requires InInt32(Segment(originalIndex, originalIndex))
      requires generateName ==> fileIdSeq == firstName + i
      modifies this
      ensures InInt32(piece.segment) && InInt32(Segment(newIndex, newIndex))
      ensures fileIdSeq == old(fileIdSeq) + if generateName then 1 else 0
      ensures var n := if Fits(file.segment) then PartCount(file.GetSize()) else 0;
              i < n && AtPiece(file, generateName, i, originalIndex, leftSize) ==>
                && piece == Part(file, generateName, firstName, i)
                && (i + 1 < n ==> AtPiece(file, generateName, i + 1, newIndex, newLeft))
    {
      piece := file.(segment := CutFrom(originalIndex, leftSize));
      if generateName {
        var name := GenerateBufferFilename();
        piece := piece.(filename := name);
      }
      if Fits(file.segment) && i < PartCount(file.GetSize())
         && AtPiece(file, generateName, i, originalIndex, leftSize) {
        PieceIsExact(file, generateName, firstName, i, originalIndex, leftSize, piece);
      }
      newIndex := if !generateName then Int32(piece.segment.end + 1) else originalIndex;
      newLeft := Int32(leftSize - piece.GetSize());
    }

    /** Source and destination are cut the same way and paired piece by piece. The bytes are
        taken to start at originalIndex, whatever the file's own segment says. */
    method PlaceDataInLayer(currentFile: PosixFile, layer: Layer, originalIndex: int)
      returns (placements: seq<(PosixFile, PosixFile)>, newIndex: int)
      requires config.last != null
      requires currentFile.GetSize() >= 0 && originalIndex <= currentFile.segment.start
      requires Fits(Segment(originalIndex, currentFile.segment.end))
      modifies this
      ensures |placements| == PartCount(currentFile.GetSize())
      ensures forall i :: 0 <= i < |placements| ==>
                placements[i] == (Part(SourceOf(currentFile, originalIndex), false, 0, i),
                                  Part(DestinationOf(currentFile, layer.id), currentFile.layer == config.last.id,
                                       old(fileIdSeq), i))
      ensures newIndex == currentFile.segment.end + 1
      ensures fileIdSeq == old(fileIdSeq) + if currentFile.layer == config.last.id then |placements| else 0
    {
      var source := currentFile;
      var destination := source.(layer := layer.id);
      destination := destination.(segment := Segment(0, source.GetSize() - 1));
      source := source.(segment := source.segment.(start := originalIndex));
      source := source.(segment := source.segment.(end := originalIndex + source.GetSize() - 1));
      newIndex := source.segment.end + 1;
      var originalPieces := SplitInParts(source, false);
      var bufPieces := SplitInParts(destination, currentFile.layer == config.last.id);
      PartCountMonotone(destination.GetSize(), source.GetSize());
      placements := [];
      for i := 0 to |bufPieces|
        invariant |placements| == i
        invariant forall k :: 0 <= k < i ==> placements[k] == (originalPieces[k], bufPieces[k])
      {
        placements := placements + [(originalPieces[i], bufPieces[i])];
      }
    }

    /** The victim scan, from the lowest score up. */
    method ScanVictims(victims: seq<Victim>, free: real, score: real, size: int) returns (spaceAvail: int)
      requires free >= 0.0
      ensures spaceAvail == Space(free, victims, score, size)
    {
      spaceAvail := free.Floor;
      var iter := |victims|;
      while iter != 0 && victims[iter - 1].score < score && spaceAvail < size
        invariant 0 <= iter <= |victims|
        invariant spaceAvail == free.Floor + BytesFrom(victims, iter, |victims|)
        invariant Spared(victims, |victims|, free.Floor, score, size) == Spared(victims, iter, spaceAvail, score, size)
      {
        spaceAvail := spaceAvail + victims[iter - 1].buffered.GetSize();
        iter := iter - 1;
      }
    }

    /** The whole file, or the whole of a piece of one, goes to one layer. */
    method PlaceAll(currentFile: PosixFile, layer: Layer, originalIndex: int, score: real)
      returns (final: seq<Placement>, newIndex: int)
      requires config.last != null
      requires currentFile.GetSize() >= 0 && originalIndex <= currentFile.segment.start
      requires Fits(Segment(originalIndex, currentFile.segment.end))
      modifies this
      ensures Outcome(final, fileIdSeq) ==
              PlaceShare(currentFile, layer.id, originalIndex, score, currentFile.layer == config.last.id,
                         old(fileIdSeq))
      ensures newIndex == currentFile.segment.end + 1
    {
      var placements;
      placements, newIndex := PlaceDataInLayer(currentFile, layer, originalIndex);
      final := [];
      for i := 0 to |placements|
        invariant |final| == i
        invariant forall k :: 0 <= k < i ==> final[k] == Placement(placements[k].0, placements[k].1, score)
      {
        final := final + [Placement(placements[i].0, placements[i].1, score)];
      }
      PlacedIs(SourceOf(currentFile, originalIndex), DestinationOf(currentFile, layer.id), score,
               currentFile.layer == config.last.id, old(fileIdSeq), final);
    }

    ghost function View(layer: Layer, layerScores: map<int, seq<Victim>>): LayerView
      requires layer.id in layerScores
      reads layer
    {
      LayerView(layer.id, Remaining(layer.capacityMb, usage(layer.id)), layerScores[layer.id])
    }

    /** The layers from position `from` down, as placement sees them. */
    ghost function Views(from: nat, layerScores: map<int, seq<Victim>>): (views: seq<LayerView>)
      requires from <= |config.chain|
      requires forall l :: l in config.chain ==> l.id in layerScores
      reads config, config.chain
      ensures |views| == |config.chain| - from
      decreases |config.chain| - from
    {
      if from == |config.chain| then []
      else [View(config.chain[from], layerScores)] + Views(from + 1, layerScores)
    }

    /** The tests of solve, in its order. */
    method Decide(segment: Segment, score: real, currentFile: PosixFile, layerScoreMap: seq<Victim>, layer: Layer)
      returns (decision: Decision)
      requires config.last != null
      ensures decision == DecisionOf(LayerView(layer.id, Remaining(layer.capacityMb, usage(layer.id)), layerScoreMap),
                                     segment.GetSize(), currentFile.GetSize(), score,
                                     currentFile.layer, config.last.id)
      ensures WellKept(layerScoreMap) && currentFile.GetSize() > 0 ==>
                IsDue(decision, LayerView(layer.id, Remaining(layer.capacityMb, usage(layer.id)), layerScoreMap),
                      segment.GetSize(), currentFile.GetSize(), score, currentFile.layer, config.last.id)
      ensures decision.Take? ==> 0 < decision.bytes < currentFile.GetSize()
      ensures decision != Stop ==> layer.id != config.last.id && layer.id != currentFile.layer
    {
      var remainingCapacity := Remaining(layer.capacityMb, usage(layer.id));
      ghost var view := LayerView(layer.id, remainingCapacity, layerScoreMap);
      if WellKept(layerScoreMap) && currentFile.GetSize() > 0 {
        DecisionIsDue(view, segment.GetSize(), currentFile.GetSize(), score, currentFile.layer, config.last.id);
      }
      var layerMinScore := LOWEST_SCORE;
      var layerMaxScore := -LOWEST_SCORE;
      if |layerScoreMap| > 0 {
        layerMinScore := layerScoreMap[0].score;
        layerMaxScore := layerScoreMap[0].score;
      }
      if |layerScoreMap| > 1 {
        layerMinScore := layerScoreMap[|layerScoreMap| - 1].score;
      }
      if currentFile.layer == layer.id {
        return Stop;
      } else if layer.id == config.last.id {
        return Stop;
      } else if remainingCapacity >= segment.GetSize() as real {
        return TakeAll;
      } else if IsAllowed(score, layerMinScore, layerMaxScore) {
        var spaceAvail := ScanVictims(layerScoreMap, remainingCapacity, score, currentFile.GetSize());
        if spaceAvail > 0 {
          if spaceAvail >= currentFile.GetSize() {
            return TakeAll;
          }
          return Take(spaceAvail);
        }
        return Stop;
      }
      return Skip;
    }

    /** Places as much of the file as the layers from `layer` down will take. */
    method Solve(segment: Segment, score: real, currentFile: PosixFile, layerScores: map<int, seq<Victim>>,
                 layer: Layer, originalIndex: int, ghost from: nat, ghost views: seq<LayerView>)
      returns (final: seq<Placement>)
      requires Valid() && from < |config.chain| && layer == config.chain[from]
      requires forall l :: l in config.chain ==> l.id in layerScores
      requires views == Views(from, layerScores)
      requires currentFile.GetSize() >= 0 && originalIndex <= currentFile.segment.start
      requires Fits(Segment(originalIndex, currentFile.segment.end))
      modifies this
      ensures Outcome(final, fileIdSeq) ==
              CarryOut(Plan(views, segment.GetSize(), currentFile.GetSize(), score, currentFile.layer, config.last.id),
                       currentFile, originalIndex, score, currentFile.layer == config.last.id, old(fileIdSeq))
      decreases |config.chain| - from, 1
    {
      hide CarryOut, PlaceShare, DecisionOf;
      var decision := Decide(segment, score, currentFile, layerScores[layer.id], layer);
      match decision
      case Stop =>
        CarryOutNothing(currentFile, originalIndex, score, currentFile.layer == config.last.id, fileIdSeq);
        final := [];
      case TakeAll =>
        CarryOutAll(currentFile, originalIndex, score, layer.id, currentFile.layer == config.last.id, fileIdSeq);
        var nextIndex;
        final, nextIndex := PlaceAll(currentFile, layer, originalIndex, score);
      case Take(spaceAvail) =>
        final := PlacePart(currentFile, layerScores, layer, originalIndex, score, spaceAvail, from, views);
      case Skip =>
        assert layer.next == config.chain[from + 1] && views[1..] == Views(from + 1, layerScores);
        final := Solve(segment, score, currentFile, layerScores, layer.next, originalIndex, from + 1, views[1..]);
    }

    /** As many bytes as the layer has space for, and the rest from the next layer down. */
    method PlacePart(currentFile: PosixFile, layerScores: map<int, seq<Victim>>, layer: Layer, originalIndex: int,
                     score: real, spaceAvail: int, ghost from: nat, ghost views: seq<LayerView>)
      returns (final: seq<Placement>)
      requires Valid() && from < |config.chain| && layer == config.chain[from] && layer.id != config.last.id
      requires forall l :: l in config.chain ==> l.id in layerScores
      requires views == Views(from, layerScores)
      requires 0 < spaceAvail < currentFile.GetSize() && originalIndex <= currentFile.segment.start
      requires Fits(Segment(originalIndex, currentFile.segment.end))
      modifies this
      ensures var left := currentFile.GetSize() - spaceAvail;
              var rest := Plan(views[1..], left, left, score, currentFile.layer, config.last.id);
              Outcome(final, fileIdSeq) ==
              CarryOut([Share(layer.id, spaceAvail)] + rest, currentFile, originalIndex, score,
                       currentFile.layer == config.last.id, old(fileIdSeq))
      decreases |config.chain| - from, 0
    {
      hide CarryOut, PlaceShare, Plan;
      ghost var firstName, fromLast := fileIdSeq, currentFile.layer == config.last.id;
      assert layer.next == config.chain[from + 1] && views[1..] == Views(from + 1, layerScores);
      var pieces := Split(currentFile, spaceAvail);
      var nextIndex;
      final, nextIndex := PlaceAll(pieces[0], layer, originalIndex, score);
      ghost var first := Outcome(final, fileIdSeq);
      assert Valid() && layer.next == config.chain[from + 1] && views[1..] == Views(from + 1, layerScores);
      assert pieces[1] == Back(currentFile, spaceAvail) && nextIndex == currentFile.segment.start + spaceAvail;
      var subProblem := Solve(pieces[1].segment, score, pieces[1], layerScores, layer.next, nextIndex,
                              from + 1, views[1..]);
      ghost var rest := Plan(views[1..], pieces[1].GetSize(), pieces[1].GetSize(), score, currentFile.layer,
                            config.last.id);
      CarryOutFirst(currentFile, originalIndex, score, Share(layer.id, spaceAvail), rest, fromLast, firstName,
                    first, Outcome(subProblem, fileIdSeq));
      final := final + subProblem;
    }
  }
}
