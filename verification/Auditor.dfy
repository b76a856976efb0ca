/** The file segment auditor: which interval map belongs to which file, how often each file is
    open, and what events and moves do to them. */
module Auditor {

  import opened Segments
  import opened IntervalMap

  /** 32-bit counters. */
  function Wrap32(x: int): (y: int)
    ensures 0 <= x < 0x1_0000_0000 ==> y == x
  {
    x % 0x1_0000_0000
  }

  /** The slot of the i-th new file, counted from 0; sequence numbers are counted from 1. */
  function SlotOf(i: nat, n: nat): (slot: nat)
    requires n > 0
    ensures slot < n
  {
    (i + 1) % n
  }

  datatype EventType = FileOpen | FileClose | FileRead | FileWrite

  datatype Event = Event(filename: string, segment: Segment, kind: EventType, layer: int, time: int)

  /** The auditor's state. Interval maps live in a fixed array of slots; a file's map is a slot. */
  datatype State = State(
    fileSegmentMap: map<string, nat>,
    validBufferedDataset: map<string, nat>,
    offsetMaps: seq<SegmentMap>,
    fileActiveStatus: map<string, int>,
    fileSequence: nat)

  // ----- what each operation does, on values

  /** A file seen for the first time gets the next slot, which then also holds its whole segment
      at score zero; a file known elsewhere gets the slot it is registered under. */
  function Created(s: State, e: Event): State
    requires |s.offsetMaps| > 0
    requires forall f :: f in s.validBufferedDataset ==> s.validBufferedDataset[f] < |s.offsetMaps|
  {
    if e.filename in s.fileSegmentMap then s
    else if e.filename in s.validBufferedDataset then
      s.(fileSegmentMap := s.fileSegmentMap[e.filename := s.validBufferedDataset[e.filename]])
    else
      var slot := SlotOf(s.fileSequence, |s.offsetMaps|);
      var file := PosixFile(e.filename, e.segment, e.layer);
      State(s.fileSegmentMap[e.filename := slot],
            s.validBufferedDataset[e.filename := slot],
            s.offsetMaps[slot := Put(s.offsetMaps[slot], e.segment, file, SegmentScore(0, 0.0))],
            s.fileActiveStatus,
            s.fileSequence + 1)
  }

  function Opened(s: State, e: Event): State {
    s.(fileActiveStatus := s.fileActiveStatus[e.filename :=
      if e.filename in s.fileActiveStatus then Wrap32(s.fileActiveStatus[e.filename] + 1) else 1])
  }

  function Closed(s: State, e: Event): State {
    if e.filename in s.fileActiveStatus
    then s.(fileActiveStatus := s.fileActiveStatus[e.filename := Wrap32(s.fileActiveStatus[e.filename] - 1)])
    else s
  }

  /** A read or move changes the map of one file only. */
  function Touched(s: State, filename: string, request: Segment, change: Change): State
    requires SlotsExist(s)
  {
    if filename in s.fileSegmentMap then
      var slot := s.fileSegmentMap[filename];
      s.(offsetMaps := s.offsetMaps[slot := Updated(s.offsetMaps[slot], request, change)])
    else s
  }

  predicate SlotsExist(s: State) {
    && |s.offsetMaps| > 0
    && (forall f :: f in s.fileSegmentMap ==> s.fileSegmentMap[f] < |s.offsetMaps|)
    && (forall f :: f in s.validBufferedDataset ==> s.validBufferedDataset[f] < |s.offsetMaps|)
  }

  /** Every file with a map here is registered with the same slot. */
  predicate Consistent(s: State) {
    && SlotsExist(s)
    && forall f :: f in s.fileSegmentMap ==>
         f in s.validBufferedDataset && s.fileSegmentMap[f] == s.validBufferedDataset[f]
  }

  function EventStep(s: State, e: Event, decay: int -> real): State
    requires SlotsExist(s)
  {
    match e.kind
    case FileOpen => Opened(Created(s, e), e)
    case FileClose => Closed(s, e)
    case FileRead => Touched(s, e.filename, e.segment, Read(decay(e.time)))
    case FileWrite => s
  }

  lemma EventKeepsConsistent(s: State, e: Event, decay: int -> real)
    requires Consistent(s)
    ensures Consistent(EventStep(s, e, decay)) && |EventStep(s, e, decay).offsetMaps| == |s.offsetMaps|
  {
  }

  /** The state after some events. */
  function AfterEvents(s: State, events: seq<Event>, decay: int -> real): (s': State)
    requires Consistent(s)
    ensures Consistent(s')
  {
    if events == [] then s else
      var init, last := events[..|events| - 1], events[|events| - 1];
      EventKeepsConsistent(AfterEvents(s, init, decay), last, decay);
      EventStep(AfterEvents(s, init, decay), last, decay)
  }

  class FileSegmentAuditor {
    var fileSegmentMap: map<string, nat>
    var validBufferedDataset: map<string, nat>
    const offsetMaps: array<SegmentMap>
    var fileActiveStatus: map<string, int>
    var fileSequence: nat
    const decay: int -> real  // what a read at a given time adds to the recency score

    constructor (maxNumFiles: nat, decay: int -> real)
      requires maxNumFiles > 0
      ensures fresh(offsetMaps) && View() == Initial(maxNumFiles) && this.decay == decay
    {
      fileSegmentMap, validBufferedDataset, fileActiveStatus := map[], map[], map[];
      offsetMaps := new SegmentMap[maxNumFiles](_ => map[]);
      fileSequence := 0;
      this.decay := decay;
      new;
      assert offsetMaps[..] == seq(maxNumFiles, _ => map[]);
    }

    ghost function View(): State
      reads this, offsetMaps
    {
      State(fileSegmentMap, validBufferedDataset, offsetMaps[..], fileActiveStatus, fileSequence)
    }

    method CreateOffsetMap(event: Event)
      requires Consistent(View())
      modifies this, offsetMaps
      ensures View() == Created(old(View()), event)
    {
      if event.filename !in fileSegmentMap {
        if event.filename in validBufferedDataset {
          var sequence := validBufferedDataset[event.filename];
          fileSegmentMap := fileSegmentMap[event.filename := sequence];
        } else {
          fileSequence := fileSequence + 1;
          var sequence := fileSequence % offsetMaps.Length;
          validBufferedDataset := validBufferedDataset[event.filename := sequence];
          var score := SegmentScore(0, 0.0);
          var file := PosixFile(event.filename, event.segment, event.layer);
          offsetMaps[sequence] := Put(offsetMaps[sequence], event.segment, file, score);
          fileSegmentMap := fileSegmentMap[event.filename := sequence];
        }
      }
    }

    method MarkFileSegmentsActive(event: Event)
      modifies this`fileActiveStatus
      ensures View() == Opened(old(View()), event)
    {
      if event.filename in fileActiveStatus {
        fileActiveStatus := fileActiveStatus[event.filename := Wrap32(fileActiveStatus[event.filename] + 1)];
      } else {
        fileActiveStatus := fileActiveStatus[event.filename := 1];
      }
    }

    method MarkFileSegmentsInactive(event: Event)
      modifies this`fileActiveStatus
      ensures View() == Closed(old(View()), event)
    {
      if event.filename in fileActiveStatus {
        fileActiveStatus := fileActiveStatus[event.filename := Wrap32(fileActiveStatus[event.filename] - 1)];
      }
    }

    method CheckIfFileActive(file: PosixFile) returns (active: bool)
      ensures active <==> file.filename in fileActiveStatus && fileActiveStatus[file.filename] != 0
    {
      if file.filename in fileActiveStatus {
        return fileActiveStatus[file.filename] != 0;
      }
      return false;
    }

    method IncreaseFileSegmentFrequency(event: Event)
      requires Consistent(View())
      modifies offsetMaps
      ensures View() == Touched(old(View()), event.filename, event.segment, Read(decay(event.time)))
    {
      if event.filename in fileSegmentMap {
        var slot := fileSegmentMap[event.filename];
        var allDatas := ContainsInServer(offsetMaps[slot], event.segment);
        ghost var change := Read(decay(event.time));
        ghost var target := ApplyAll(offsetMaps[slot], allDatas, event.segment, change);
        for i := 0 to |allDatas|
          invariant offsetMaps[..] == old(offsetMaps[..])[slot := offsetMaps[slot]]
          invariant target == ApplyAll(offsetMaps[slot], allDatas[i..], event.segment, change)
        {
          offsetMaps[slot] := ReadItem(offsetMaps[slot], allDatas[i], event);
          assert allDatas[i..][0] == allDatas[i] && allDatas[i..][1..] == allDatas[i + 1..];
        }
        assert allDatas[|allDatas|..] == [];
      }
    }

    /** The loop over the leftovers. */
    static method PutLeftOvers(m0: SegmentMap, leftOvers: seq<Segment>, file: PosixFile, score: SegmentScore)
      returns (m: SegmentMap)
      ensures m == PutAll(m0, leftOvers, file, score)
    {
      m := m0;
      for i := 0 to |leftOvers|
        invariant PutAll(m0, leftOvers, file, score) == PutAll(m, leftOvers[i..], file, score)
      {
        m := Put(m, leftOvers[i], file, score);
        assert leftOvers[i..][1..] == leftOvers[i + 1..];
      }
      assert leftOvers[|leftOvers|..] == [];
    }

    /** One round of the read loop. */
    method ReadItem(m0: SegmentMap, elements: Item, event: Event) returns (m: SegmentMap)
      ensures m == Apply(m0, elements, event.segment, Read(decay(event.time)))
    {
      m := Erase(m0, elements.key);
      m := PutLeftOvers(m, elements.key.Substract(event.segment), elements.file, elements.score);
      var common := event.segment.Intersect(elements.key);
      var score := elements.score;
      score := score.(frequency := score.frequency + 1);
      score := score.(lrf := score.lrf + decay(event.time));
      m := Put(m, common, elements.file, score);
    }

    /** One round of the move loop. */
    static method MoveItem(m0: SegmentMap, elements: Item, source: PosixFile, destination: PosixFile)
      returns (m: SegmentMap)
      ensures m == Apply(m0, elements, source.segment, Move(destination))
    {
      m := Erase(m0, elements.key);
      m := PutLeftOvers(m, elements.key.Substract(source.segment), elements.file, elements.score);
      var common := source.segment.Intersect(elements.key);
      var file := destination;
      file := file.(segment := Segment(common.start - source.segment.start, common.end - source.segment.start));
      m := Put(m, common, file, elements.score);
    }

    method UpdateOnMove(source: PosixFile, destination: PosixFile)
      requires Consistent(View())
      modifies offsetMaps
      ensures View() == Touched(old(View()), source.filename, source.segment, Move(destination))
    {
      if source.filename in fileSegmentMap {
        var slot := fileSegmentMap[source.filename];
        var allDatas := ContainsInServer(offsetMaps[slot], source.segment);
        ghost var target := ApplyAll(offsetMaps[slot], allDatas, source.segment, Move(destination));
        for i := 0 to |allDatas|
          invariant offsetMaps[..] == old(offsetMaps[..])[slot := offsetMaps[slot]]
          invariant target == ApplyAll(offsetMaps[slot], allDatas[i..], source.segment, Move(destination))
        {
          offsetMaps[slot] := MoveItem(offsetMaps[slot], allDatas[i], source, destination);
          assert allDatas[i..][0] == allDatas[i] && allDatas[i..][1..] == allDatas[i + 1..];
        }
        assert allDatas[|allDatas|..] == [];
      }
    }

    method UpdateOne(event: Event)
      requires Consistent(View())
      modifies this, offsetMaps
      ensures View() == EventStep(old(View()), event, decay)
    {
      match event.kind
      case FileOpen =>
        if event.filename !in fileSegmentMap {
          CreateOffsetMap(event);
        }
        MarkFileSegmentsActive(event);
      case FileClose =>
        MarkFileSegmentsInactive(event);
      case FileRead =>
        IncreaseFileSegmentFrequency(event);
      case FileWrite =>
    }

    /** Handles a batch of events in order. */
    method Update(events: seq<Event>)
      requires Consistent(View())
      modifies this, offsetMaps
      ensures Consistent(View()) && View() == AfterEvents(old(View()), events, decay)
    {
      for i := 0 to |events|
        invariant Consistent(View()) && View() == AfterEvents(old(View()), events[..i], decay)
      {
        EventKeepsConsistent(View(), events[i], decay);
        UpdateOne(events[i]);
        assert events[..i + 1][..i] == events[..i];
      }
      assert events[..|events|] == events;
    }

    /** All of a file's segments, highest score first. */
    method FetchHeatMap(file: PosixFile) returns (heatMap: seq<Item>)
      requires Consistent(View())
      ensures file.filename !in fileSegmentMap ==> heatMap == []
      ensures file.filename in fileSegmentMap ==> IsHeatMap(heatMap, offsetMaps[fileSegmentMap[file.filename]])
    {
      heatMap := [];
      if file.filename in fileSegmentMap {
        var m := offsetMaps[fileSegmentMap[file.filename]];
        var left: set<int> := m.Keys;
        while left != {}
          invariant left <= m.Keys
          invariant IsHeatMap(heatMap, m - left)
          decreases left
        {
          PickFrom(left);
          var s: int :| s in left;
          ghost var before := left;
          left := left - {s};
          heatMap := Emplace(heatMap, ItemOf(m, s), m - before, m - left);
        }
        assert m - left == m;
      }
    }

    /** Inserts after every item that scores at least as much. */
    static method Emplace(items: seq<Item>, item: Item, ghost m: SegmentMap, ghost m': SegmentMap)
      returns (more: seq<Item>)
      requires IsHeatMap(items, m) && item.key.start !in m
      requires m' == Put(m, item.key, item.file, item.score)
      ensures IsHeatMap(more, m')
    {
      var p := |items|;
      while p > 0 && items[p - 1].score.lrf < item.score.lrf
        invariant 0 <= p <= |items|
        invariant forall i :: p <= i < |items| ==> items[i].score.lrf < item.score.lrf
      {
        p := p - 1;
      }
      InsertKeepsHeatMap(items, item, p, m);
      more := items[..p] + [item] + items[p..];
    }

    /** The end of a batch: the buffers to delete are those, outside the last layer, in the maps of files
        whose close left their active count at zero. */
    method BuffersToDelete(events: seq<Event>, lastLayer: int) returns (deleted: seq<PosixFile>)
      requires Consistent(View())
      ensures forall d :: d in deleted <==> exists i :: 0 <= i < |events| && Releases(View(), events[i], lastLayer, d)
    {
      deleted := [];
      for i := 0 to |events|
        invariant forall d :: d in deleted <==> exists k :: 0 <= k < i && Releases(View(), events[k], lastLayer, d)
      {
        ghost var before := deleted;
        var event := events[i];
        if event.kind == FileClose {
          var file := PosixFile(event.filename, event.segment, event.layer);
          var isFileActive := CheckIfFileActive(file);
          if !isFileActive {
            var heatMap := FetchHeatMap(file);
            for j := 0 to |heatMap|
              invariant forall d :: d in deleted <==>
                          d in before || exists k :: 0 <= k < j && heatMap[k].file == d && d.layer != lastLayer
            {
              if heatMap[j].file.layer != lastLayer {
                deleted := deleted + [heatMap[j].file];
              }
            }
            forall d
              ensures Releases(View(), event, lastLayer, d) <==>
                      exists k :: 0 <= k < |heatMap| && heatMap[k].file == d && d.layer != lastLayer
            {
              HeatMapFiles(event, heatMap, lastLayer, d);
            }
          }
        }
        assert forall d :: d in deleted <==> d in before || Releases(View(), event, lastLayer, d);
      }
    }

    lemma HeatMapFiles(event: Event, heatMap: seq<Item>, lastLayer: int, d: PosixFile)
      requires Consistent(View()) && event.kind == FileClose
      requires !(event.filename in fileActiveStatus && fileActiveStatus[event.filename] != 0)
      requires event.filename !in fileSegmentMap ==> heatMap == []
      requires event.filename in fileSegmentMap ==> IsHeatMap(heatMap, offsetMaps[fileSegmentMap[event.filename]])
      ensures Releases(View(), event, lastLayer, d) <==>
              exists k :: 0 <= k < |heatMap| && heatMap[k].file == d && d.layer != lastLayer
    {
      if Releases(View(), event, lastLayer, d) {
        var m := offsetMaps[fileSegmentMap[event.filename]];
        var s :| s in m && m[s].file == d;
        assert IsListed(heatMap, s);
        var k :| 0 <= k < |heatMap| && heatMap[k].key.start == s;
        assert heatMap[k].file == d;
      }
    }
  }

  /** A close event lets go of a buffer: its file is not open any more, and the map that the file uses
      holds the buffer, which is not on the last layer. */
  ghost predicate Releases(s: State, event: Event, lastLayer: int, d: PosixFile)
    requires Consistent(s)
  {
    && event.kind == FileClose
    && !(event.filename in s.fileActiveStatus && s.fileActiveStatus[event.filename] != 0)
    && event.filename in s.fileSegmentMap
    && d.layer != lastLayer
    && HoldsFile(s.offsetMaps[s.fileSegmentMap[event.filename]], d)
  }

  ghost predicate HoldsFile(m: SegmentMap, d: PosixFile) {
    exists s :: s in m && m[s].file == d
  }

  /** Every item of the map once, by falling score. */
  ghost predicate IsHeatMap(items: seq<Item>, m: SegmentMap) {
    && (forall i :: 0 <= i < |items| ==> items[i].key.start in m && items[i] == ItemOf(m, items[i].key.start))
    && (forall s :: s in m ==> IsListed(items, s))
    && Ordered(items)
  }

  ghost function Inserted(items: seq<Item>, item: Item, p: nat): (more: seq<Item>)
    requires p <= |items|
    ensures |more| == |items| + 1 && more[p] == item
    ensures forall i :: 0 <= i < p ==> more[i] == items[i]
    ensures forall i :: p <= i < |items| ==> more[i + 1] == items[i]
  {
    items[..p] + [item] + items[p..]
  }

  /** An item that may come before another one: a different key, and no lower score. */
  ghost predicate Precedes(a: Item, b: Item) {
    a.key.start != b.key.start && a.score.lrf >= b.score.lrf
  }

  ghost predicate Ordered(items: seq<Item>) {
    forall i, j :: 0 <= i < j < |items| ==> Precedes(items[i], items[j])
  }

  lemma InsertKeepsOrder(items: seq<Item>, item: Item, p: nat)
    requires Ordered(items) && p <= |items|
    requires forall i :: 0 <= i < p ==> Precedes(items[i], item)
    requires forall i :: p <= i < |items| ==> Precedes(item, items[i])
    ensures Ordered(Inserted(items, item, p))
  {
    var more := Inserted(items, item, p);
    forall i, j | 0 <= i < j < |more|
      ensures Precedes(more[i], more[j])
    {
      assert more[i] == if i < p then items[i] else if i == p then item else items[i - 1];
      assert more[j] == if j < p then items[j] else if j == p then item else items[j - 1];
    }
  }

  lemma InsertLists(items: seq<Item>, item: Item, p: nat, m: SegmentMap, s: int)
    requires IsHeatMap(items, m) && p <= |items| && (s in m || s == item.key.start)
    ensures IsListed(Inserted(items, item, p), s)
  {
    var more := Inserted(items, item, p);
    if s == item.key.start {
      assert more[p].key.start == s;
    } else {
      assert IsListed(items, s);
      var i :| 0 <= i < |items| && items[i].key.start == s;
      assert more[if i < p then i else i + 1].key.start == s;
    }
  }

  lemma InsertKeepsHeatMap(items: seq<Item>, item: Item, p: nat, m: SegmentMap)
    requires IsHeatMap(items, m) && item.key.start !in m && p <= |items|
    requires forall i :: p <= i < |items| ==> items[i].score.lrf < item.score.lrf
    requires p > 0 ==> items[p - 1].score.lrf >= item.score.lrf
    ensures IsHeatMap(Inserted(items, item, p), Put(m, item.key, item.file, item.score))
  {
    var more := Inserted(items, item, p);
    forall i | 0 <= i < p
      ensures Precedes(items[i], item)
    {
      assert i < p - 1 ==> Precedes(items[i], items[p - 1]);
    }
    InsertKeepsOrder(items, item, p);
    forall s | s in m || s == item.key.start
      ensures IsListed(more, s)
    {
      InsertLists(items, item, p, m, s);
    }
    forall i | 0 <= i < |more|
      ensures more[i] == item || more[i] in items
    {
      if i > p {
        assert more[i] == items[i - 1];
      }
    }
  }

  /** What can happen to the auditor. */
  datatype Op = OnEvent(event: Event) | OnMove(source: PosixFile, destination: PosixFile)

  function Step(s: State, op: Op, decay: int -> real): State
    requires SlotsExist(s)
  {
    match op
    case OnEvent(e) => EventStep(s, e, decay)
    case OnMove(source, destination) => Touched(s, source.filename, source.segment, Move(destination))
  }

  lemma StepKeepsConsistent(s: State, op: Op, decay: int -> real)
    requires Consistent(s)
    ensures Consistent(Step(s, op, decay)) && |Step(s, op, decay).offsetMaps| == |s.offsetMaps|
  {
  }

  function Initial(maxNumFiles: nat): State {
    State(map[], map[], seq(maxNumFiles, _ => map[]), map[], 0)
  }
}
