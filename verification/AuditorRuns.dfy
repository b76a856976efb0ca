/** What holds of the auditor after any run of opens, closes, reads and moves. */
module AuditorRuns {

  import opened Segments
  import opened IntervalMap
  import opened SegmentUpdates
  import opened ByteHistory
  import opened Auditor

  /** The state that operations lead to from a fresh auditor with n maps. */
  function After(ops: seq<Op>, decay: int -> real, n: nat): (s: State)
    requires n > 0
    ensures Consistent(s) && |s.offsetMaps| == n
  {
    if ops == [] then Initial(n) else
      var before := After(ops[..|ops| - 1], decay, n);
      StepKeepsConsistent(before, ops[|ops| - 1], decay);
      Step(before, ops[|ops| - 1], decay)
  }

  /** The opens that met their file for the first time, in order. */
  function FirstOpens(ops: seq<Op>): seq<Event> {
    if ops == [] then [] else
      var before := FirstOpens(ops[..|ops| - 1]);
      var last := ops[|ops| - 1];
      if OpensNew(before, last) then before + [last.event] else before
  }

  predicate OpensNew(before: seq<Event>, op: Op) {
    op.OnEvent? && op.event.kind == FileOpen && !Known(before, op.event.filename)
  }

  predicate Known(opens: seq<Event>, filename: string) {
    exists i :: 0 <= i < |opens| && opens[i].filename == filename
  }

  // ----- which map a file uses

  /** The i-th new file is registered, here and globally, under its slot, and nothing else is. */
  ghost predicate Registered(s: State, opens: seq<Event>, n: nat) {
    && n > 0 && |s.offsetMaps| == n && s.fileSequence == |opens|
    && (forall i, j :: 0 <= i < j < |opens| ==> opens[i].filename != opens[j].filename)
    && (forall i :: 0 <= i < |opens| ==> HasSlot(s, opens[i].filename, SlotOf(i, n)))
    && (forall f :: f in s.fileSegmentMap || f in s.validBufferedDataset ==> Known(opens, f))
  }

  ghost predicate HasSlot(s: State, filename: string, slot: nat) {
    && filename in s.fileSegmentMap && s.fileSegmentMap[filename] == slot
    && filename in s.validBufferedDataset && s.validBufferedDataset[filename] == slot
  }

  /** Only the open of a new file changes what is registered. */
  lemma OnlyNewOpensRegister(s: State, op: Op, decay: int -> real)
    requires SlotsExist(s)
    requires op.OnEvent? && op.event.kind == FileOpen ==> op.event.filename in s.fileSegmentMap
    ensures var s' := Step(s, op, decay);
            && s'.fileSegmentMap == s.fileSegmentMap && s'.validBufferedDataset == s.validBufferedDataset
            && s'.fileSequence == s.fileSequence && |s'.offsetMaps| == |s.offsetMaps|
  {
    hide Updated, Put, SlotOf, Wrap32;
  }

  lemma KnownHasSlot(s: State, opens: seq<Event>, n: nat, f: string)
    requires Registered(s, opens, n) && Known(opens, f)
    ensures f in s.fileSegmentMap
  {
    var i :| 0 <= i < |opens| && opens[i].filename == f;
    assert HasSlot(s, opens[i].filename, SlotOf(i, n));
  }

  lemma SameStaysRegistered(s: State, opens: seq<Event>, s': State, n: nat)
    requires Registered(s, opens, n)
    requires s'.fileSegmentMap == s.fileSegmentMap && s'.validBufferedDataset == s.validBufferedDataset
    requires s'.fileSequence == s.fileSequence && |s'.offsetMaps| == |s.offsetMaps|
    ensures Registered(s', opens, n)
  {
    forall i | 0 <= i < |opens|
      ensures HasSlot(s', opens[i].filename, SlotOf(i, n))
    {
      assert HasSlot(s, opens[i].filename, SlotOf(i, n));
    }
  }

  lemma NewOpenRegisters(s: State, before: seq<Event>, e: Event, n: nat)
    requires Registered(s, before, n) && !Known(before, e.filename) && SlotsExist(s)
    ensures Registered(Opened(Created(s, e), e), before + [e], n)
  {
    hide SlotOf, Put;
    var opens, s' := before + [e], Opened(Created(s, e), e);
    forall i | 0 <= i < |opens|
      ensures HasSlot(s', opens[i].filename, SlotOf(i, n))
    {
      if i < |before| {
        assert opens[i] == before[i] && HasSlot(s, before[i].filename, SlotOf(i, n));
      }
    }
    forall f | Known(before, f) || f == e.filename
      ensures Known(opens, f)
    {
      if f == e.filename {
        assert opens[|before|].filename == f;
      } else {
        var i :| 0 <= i < |before| && before[i].filename == f;
        assert opens[i].filename == f;
      }
    }
  }

  lemma {:induction false} RunRegisters(ops: seq<Op>, decay: int -> real, n: nat)
    requires n > 0
    ensures Registered(After(ops, decay, n), FirstOpens(ops), n)
    decreases |ops|
  {
    if ops != [] {
      var prefix, op := ops[..|ops| - 1], ops[|ops| - 1];
      RunRegisters(prefix, decay, n);
      var s, before := After(prefix, decay, n), FirstOpens(prefix);
      hide Registered, Created, Opened, Touched, Closed;
      if OpensNew(before, op) {
        NewOpenRegisters(s, before, op.event, n);
      } else {
        if op.OnEvent? && op.event.kind == FileOpen {
          KnownHasSlot(s, before, n, op.event.filename);
        }
        OnlyNewOpensRegister(s, op, decay);
        SameStaysRegistered(s, before, Step(s, op, decay), n);
      }
    }
  }

  /** Any n files that were first opened one after the other have different maps. */
  lemma ConsecutiveFilesGetDistinctMaps(ops: seq<Op>, decay: int -> real, n: nat, i: nat, j: nat)
    requires n > 0 && i < j < i + n && j < |FirstOpens(ops)|
    ensures var s, opens := After(ops, decay, n), FirstOpens(ops);
            && opens[i].filename in s.fileSegmentMap && opens[j].filename in s.fileSegmentMap
            && s.fileSegmentMap[opens[i].filename] != s.fileSegmentMap[opens[j].filename]
  {
    RunRegisters(ops, decay, n);
    var s, opens := After(ops, decay, n), FirstOpens(ops);
    assert HasSlot(s, opens[i].filename, SlotOf(i, n)) && HasSlot(s, opens[j].filename, SlotOf(j, n));
    SlotsDiffer(i, j, n);
  }

  lemma SlotsDiffer(i: nat, j: nat, n: nat)
    requires n > 0 && i < j < i + n
    ensures SlotOf(i, n) != SlotOf(j, n)
  {
    var a, b := i + 1, j + 1;
    if a % n == b % n {
      var q := b / n - a / n;
      assert q * n == b - a by {
        assert a == a / n * n + a % n && b == b / n * n + b % n;
      }
      if q >= 1 {
        AtLeastFactor(q, n);
      } else {
        AtMostZero(q, n);
      }
    }
  }

  lemma AtLeastFactor(q: nat, n: nat)
    requires q >= 1
    ensures q * n >= n
  {
  }

  lemma AtMostZero(q: int, n: nat)
    requires q <= 0
    ensures q * n <= 0
  {
  }

  // ----- the history of a file

  /** The operation is a read of the file, or moves some of its bytes. */
  predicate Touches(op: Op, filename: string) {
    match op
    case OnEvent(e) => e.kind == FileRead && e.filename == filename
    case OnMove(source, _) => source.filename == filename
  }

  function TouchOf(op: Op, decay: int -> real): Touch {
    match op
    case OnEvent(e) => Touch(e.segment, Read(decay(e.time)))
    case OnMove(source, destination) => Touch(source.segment, Move(destination))
  }

  /** The reads and moves of a file since its first open, in order. */
  function History(ops: seq<Op>, filename: string, decay: int -> real): seq<Touch> {
    if ops == [] then [] else
      var before, last := ops[..|ops| - 1], ops[|ops| - 1];
      History(before, filename, decay)
      + if Touches(last, filename) && Known(FirstOpens(before), filename) then [TouchOf(last, decay)] else []
  }

  function OpenedFile(open: Event): PosixFile {
    PosixFile(open.filename, open.segment, open.layer)
  }

  lemma StaysKnown(ops: seq<Op>, filename: string)
    requires ops != [] && Known(FirstOpens(ops[..|ops| - 1]), filename)
    ensures Known(FirstOpens(ops), filename)
  {
    var before, opens := FirstOpens(ops[..|ops| - 1]), FirstOpens(ops);
    assert before <= opens;
    hide FirstOpens;
    var i :| 0 <= i < |before| && before[i].filename == filename;
    assert opens[i].filename == filename;
  }

  lemma {:induction false} NoHistoryBeforeOpen(ops: seq<Op>, filename: string, decay: int -> real)
    requires !Known(FirstOpens(ops), filename)
    ensures History(ops, filename, decay) == []
    decreases |ops|
  {
    if ops != [] {
      if Known(FirstOpens(ops[..|ops| - 1]), filename) {
        StaysKnown(ops, filename);
      }
      NoHistoryBeforeOpen(ops[..|ops| - 1], filename, decay);
    }
  }

  // ----- the map of a file

  /** The map is what the file's own reads and moves make of the key it was opened with. */
  ghost predicate Follows(m: SegmentMap, open: Event, ops: seq<Op>, decay: int -> real) {
    m == MapOf(open.segment, OpenedFile(open), History(ops, open.filename, decay))
  }

  /** The maps of the files follow their histories, and the others are empty. */
  ghost predicate AllFollow(s: State, ops: seq<Op>, decay: int -> real) {
    var opens, n := FirstOpens(ops), |s.offsetMaps|;
    && n > 0
    && (forall i :: 0 <= i < |opens| ==> Follows(s.offsetMaps[SlotOf(i, n)], opens[i], ops, decay))
    && (forall i :: |opens| <= i < n ==> s.offsetMaps[SlotOf(i, n)] == map[])
  }

  lemma UntouchedFollows(m: SegmentMap, open: Event, ops: seq<Op>, decay: int -> real)
    requires ops != [] && Follows(m, open, ops[..|ops| - 1], decay)
    requires !Touches(ops[|ops| - 1], open.filename)
    ensures Follows(m, open, ops, decay)
  {
    var before := History(ops[..|ops| - 1], open.filename, decay);
    assert before + [] == before;
  }

  lemma TouchedFollows(m: SegmentMap, open: Event, ops: seq<Op>, decay: int -> real)
    requires ops != [] && Follows(m, open, ops[..|ops| - 1], decay)
    requires Known(FirstOpens(ops[..|ops| - 1]), open.filename) && Touches(ops[|ops| - 1], open.filename)
    ensures var touch := TouchOf(ops[|ops| - 1], decay);
            Follows(Updated(m, touch.request, touch.change), open, ops, decay)
  {
    hide Updated, TouchOf, FirstOpens, Known, Touches, MapOf;
    var before, touch := History(ops[..|ops| - 1], open.filename, decay), TouchOf(ops[|ops| - 1], decay);
    assert History(ops, open.filename, decay) == before + [touch];
    MapAfterOneMore(open.segment, OpenedFile(open), before, touch);
  }

  /** A fresh map holds one key, the whole segment, and nothing has happened to it. */
  lemma FreshFollows(open: Event, ops: seq<Op>, decay: int -> real)
    requires ops != [] && ops[|ops| - 1] == OnEvent(open) && OpensNew(FirstOpens(ops[..|ops| - 1]), ops[|ops| - 1])
    ensures Follows(Put(map[], open.segment, OpenedFile(open), SegmentScore(0, 0.0)), open, ops, decay)
  {
    NoHistoryBeforeOpen(ops[..|ops| - 1], open.filename, decay);
    assert History(ops, open.filename, decay) == [];
  }

  lemma NewOpenMaps(s: State, before: seq<Event>, e: Event, n: nat)
    requires Registered(s, before, n) && SlotsExist(s) && !Known(before, e.filename)
    ensures var slot := SlotOf(|before|, n);
            Opened(Created(s, e), e).offsetMaps
            == s.offsetMaps[slot := Put(s.offsetMaps[slot], e.segment, OpenedFile(e), SegmentScore(0, 0.0))]
  {
    hide SlotOf, Put;
  }

  /** The open of a new file, as long as there is a map left. */
  lemma NewOpenFollows(s: State, ops: seq<Op>, decay: int -> real, n: nat)
    requires ops != [] && OpensNew(FirstOpens(ops[..|ops| - 1]), ops[|ops| - 1])
    requires Registered(s, FirstOpens(ops[..|ops| - 1]), n) && |FirstOpens(ops[..|ops| - 1])| < n
    requires SlotsExist(s) && AllFollow(s, ops[..|ops| - 1], decay)
    ensures AllFollow(Step(s, ops[|ops| - 1], decay), ops, decay)
  {
    var before, e := FirstOpens(ops[..|ops| - 1]), ops[|ops| - 1].event;
    var m := Put(map[], e.segment, OpenedFile(e), SegmentScore(0, 0.0));
    var s' := Step(s, ops[|ops| - 1], decay);
    assert s.offsetMaps[SlotOf(|before|, n)] == map[];
    NewOpenMaps(s, before, e, n);
    assert s'.offsetMaps == s.offsetMaps[SlotOf(|before|, n) := m];
    assert FirstOpens(ops) == before + [e];
    hide Follows, SlotOf, FirstOpens, Put, Created, Opened, Step, Registered;
    FreshFollows(e, ops, decay);
    forall i | 0 <= i < n
      ensures i < |before| ==> Follows(s'.offsetMaps[SlotOf(i, n)], before[i], ops, decay)
      ensures i == |before| ==> s'.offsetMaps[SlotOf(i, n)] == m
      ensures i > |before| ==> s'.offsetMaps[SlotOf(i, n)] == map[]
    {
      if i < |before| {
        SlotsDiffer(i, |before|, n);
        UntouchedFollows(s.offsetMaps[SlotOf(i, n)], before[i], ops, decay);
      } else if i > |before| {
        SlotsDiffer(|before|, i, n);
      }
    }
  }

  /** An operation that opens no new file and touches none leaves all maps alone. */
  lemma NothingTouched(s: State, ops: seq<Op>, decay: int -> real, s': State)
    requires ops != [] && FirstOpens(ops) == FirstOpens(ops[..|ops| - 1])
    requires AllFollow(s, ops[..|ops| - 1], decay) && s'.offsetMaps == s.offsetMaps
    requires forall i :: 0 <= i < |FirstOpens(ops)| ==> !Touches(ops[|ops| - 1], FirstOpens(ops)[i].filename)
    ensures AllFollow(s', ops, decay)
  {
    hide Follows, SlotOf;
    forall i | 0 <= i < |FirstOpens(ops)|
      ensures Follows(s.offsetMaps[SlotOf(i, |s.offsetMaps|)], FirstOpens(ops)[i], ops, decay)
    {
      UntouchedFollows(s.offsetMaps[SlotOf(i, |s.offsetMaps|)], FirstOpens(ops)[i], ops, decay);
    }
  }

  lemma SlotsApart(i: nat, k: nat, n: nat)
    requires i < n && k < n && i != k
    ensures SlotOf(i, n) != SlotOf(k, n)
  {
    if i < k {
      SlotsDiffer(i, k, n);
    } else {
      SlotsDiffer(k, i, n);
    }
  }

  /** The state with another map in a slot. */
  function WithMap(s: State, slot: nat, m: SegmentMap): State
    requires slot < |s.offsetMaps|
  {
    s.(offsetMaps := s.offsetMaps[slot := m])
  }

  lemma TouchIsStep(s: State, before: seq<Event>, op: Op, decay: int -> real, n: nat, k: nat)
    requires Registered(s, before, n) && SlotsExist(s)
    requires k < |before| && Touches(op, before[k].filename)
    ensures var touch, slot := TouchOf(op, decay), SlotOf(k, n);
            Step(s, op, decay) == WithMap(s, slot, Updated(s.offsetMaps[slot], touch.request, touch.change))
  {
    hide Updated, SlotOf;
    assert HasSlot(s, before[k].filename, SlotOf(k, n));
  }

  /** An operation that touches the k-th file. */
  lemma FileTouched(s: State, ops: seq<Op>, decay: int -> real, n: nat, k: nat)
    requires ops != [] && FirstOpens(ops) == FirstOpens(ops[..|ops| - 1])
    requires Registered(s, FirstOpens(ops), n) && |FirstOpens(ops)| <= n
    requires AllFollow(s, ops[..|ops| - 1], decay)
    requires k < |FirstOpens(ops)| && Touches(ops[|ops| - 1], FirstOpens(ops)[k].filename)
    ensures var touch, slot := TouchOf(ops[|ops| - 1], decay), SlotOf(k, n);
            AllFollow(WithMap(s, slot, Updated(s.offsetMaps[slot], touch.request, touch.change)), ops, decay)
  {
    hide SlotOf, FirstOpens, Follows, Updated, TouchOf;
    var opens, touch, slot := FirstOpens(ops), TouchOf(ops[|ops| - 1], decay), SlotOf(k, n);
    var s' := WithMap(s, slot, Updated(s.offsetMaps[slot], touch.request, touch.change));
    forall i | 0 <= i < n
      ensures i < |opens| ==> Follows(s'.offsetMaps[SlotOf(i, n)], opens[i], ops, decay)
      ensures i >= |opens| ==> s'.offsetMaps[SlotOf(i, n)] == map[]
    {
      if i == k {
        TouchedFollows(s.offsetMaps[slot], opens[k], ops, decay);
      } else {
        SlotsApart(i, k, n);
        if i < |opens| {
          assert opens[i].filename != opens[k].filename;
          UntouchedFollows(s.offsetMaps[SlotOf(i, n)], opens[i], ops, decay);
        }
      }
    }
  }

  /** Without the open of a new file and a touch of a known one the maps stay as they are. */
  lemma UnknownUntouched(s: State, before: seq<Event>, op: Op, decay: int -> real, n: nat)
    requires Registered(s, before, n) && SlotsExist(s) && !OpensNew(before, op)
    requires forall k :: 0 <= k < |before| ==> !Touches(op, before[k].filename)
    ensures Step(s, op, decay).offsetMaps == s.offsetMaps
  {
    hide SlotOf, Updated, Put, HasSlot;
    if op.OnEvent? && op.event.kind == FileOpen {
      KnownHasSlot(s, before, n, op.event.filename);
    }
  }

  /** Over any run on at most n files, whatever the requests, the map of each file is what its own reads
      and moves make of it, and no other file's operation changes it. */
  lemma {:induction false} MapsFollowHistories(ops: seq<Op>, decay: int -> real, n: nat)
    requires n > 0 && |FirstOpens(ops)| <= n
    ensures AllFollow(After(ops, decay, n), ops, decay)
    decreases |ops|
  {
    if ops != [] {
      var prefix, op := ops[..|ops| - 1], ops[|ops| - 1];
      FirstOpensGrow(ops, |prefix|);
      MapsFollowHistories(prefix, decay, n);
      var s, before := After(prefix, decay, n), FirstOpens(prefix);
      RunRegisters(prefix, decay, n);
      assert After(ops, decay, n) == Step(s, op, decay);
      hide Registered, SlotOf, AllFollow, Updated, SlotsExist, After, Step, WithMap, Touches;
      if OpensNew(before, op) {
        NewOpenFollows(s, ops, decay, n);
      } else {
        assert FirstOpens(ops) == before;
        hide FirstOpens;
        if k :| 0 <= k < |before| && Touches(op, before[k].filename) {
          TouchIsStep(s, before, op, decay, n, k);
          FileTouched(s, ops, decay, n, k);
        } else {
          UnknownUntouched(s, before, op, decay, n);
          NothingTouched(s, ops, decay, Step(s, op, decay));
        }
      }
    }
  }

  lemma {:induction false} FirstOpensGrow(ops: seq<Op>, k: nat)
    requires k <= |ops|
    ensures FirstOpens(ops[..k]) <= FirstOpens(ops)
    decreases |ops|
  {
    if k < |ops| {
      var prefix := ops[..|ops| - 1];
      FirstOpensGrow(prefix, k);
      assert prefix[..k] == ops[..k];
    } else {
      assert ops[..k] == ops;
    }
  }

  // ----- exact covers

  ghost predicate AllNonempty(opens: seq<Event>) {
    forall i :: 0 <= i < |opens| ==> opens[i].segment.Nonempty()
  }

  ghost predicate SafeFor(ops: seq<Op>, decay: int -> real, open: Event) {
    AllSafe(open.segment, History(ops, open.filename, decay))
  }

  /** All requests for the files are safe, given the cuts of the requests before them. */
  ghost predicate SafeRun(ops: seq<Op>, decay: int -> real) {
    forall i :: 0 <= i < |FirstOpens(ops)| ==> SafeFor(ops, decay, FirstOpens(ops)[i])
  }

  /** The maps of all files are exact covers of the segments they were opened with. */
  ghost predicate AllCovered(s: State, opens: seq<Event>) {
    var n := |s.offsetMaps|;
    n > 0 && forall i :: 0 <= i < |opens| ==> Partition(s.offsetMaps[SlotOf(i, n)], opens[i].segment)
  }

  /** After any run of safe requests on at most n nonempty files, the map of each file is an exact cover of
      the segment the file was opened with, cut where its reads and moves have cut it, and every byte has
      exactly the score and the place that they have led to. */
  lemma SafeRunsTrack(ops: seq<Op>, decay: int -> real, n: nat, i: nat)
    requires n > 0 && |FirstOpens(ops)| <= n && AllNonempty(FirstOpens(ops)) && SafeRun(ops, decay)
    requires i < |FirstOpens(ops)|
    ensures var open, s := FirstOpens(ops)[i], After(ops, decay, n);
            && open.filename in s.fileSegmentMap
            && Tracks(s.offsetMaps[s.fileSegmentMap[open.filename]], open.segment, OpenedFile(open),
                      History(ops, open.filename, decay))
  {
    hide FirstOpens, Tracks, MapOf, AllSafe, SlotOf;
    var open, s := FirstOpens(ops)[i], After(ops, decay, n);
    RunRegisters(ops, decay, n);
    MapsFollowHistories(ops, decay, n);
    assert HasSlot(s, open.filename, SlotOf(i, n)) && Follows(s.offsetMaps[SlotOf(i, n)], open, ops, decay);
    assert SafeFor(ops, decay, open);
    SafeRequestsTrack(open.segment, OpenedFile(open), History(ops, open.filename, decay));
  }

  /** In numbers: over any such run a byte has been read as often as its frequency says, its recency score is
      the sum of these reads, and it is where its last move has put it, or in the file if there was none. */
  lemma SafeRunsAccount(ops: seq<Op>, decay: int -> real, n: nat, i: nat, b: int)
    requires n > 0 && |FirstOpens(ops)| <= n && AllNonempty(FirstOpens(ops)) && SafeRun(ops, decay)
    requires i < |FirstOpens(ops)| && FirstOpens(ops)[i].segment.Covers(b)
    ensures var open, s := FirstOpens(ops)[i], After(ops, decay, n);
            var whole, history := open.segment, History(ops, open.filename, decay);
            && open.filename in s.fileSegmentMap
            && var m := s.offsetMaps[s.fileSegmentMap[open.filename]];
            && HasByte(m, b)
            && ScoreAt(m, b).frequency == |ReadsOfByte(whole, history, b)|
            && ScoreAt(m, b).lrf == Sum(ReadsOfByte(whole, history, b))
            && IsPlaced(m, whole, OpenedFile(open), history, b)
  {
    hide FirstOpens, MapOf, AllSafe, SlotOf, History, HasByte, ReadsOfByte, After;
    var open, s := FirstOpens(ops)[i], After(ops, decay, n);
    RunRegisters(ops, decay, n);
    MapsFollowHistories(ops, decay, n);
    assert HasSlot(s, open.filename, SlotOf(i, n)) && Follows(s.offsetMaps[SlotOf(i, n)], open, ops, decay);
    assert SafeFor(ops, decay, open);
    ScoresCountReads(open.segment, OpenedFile(open), History(ops, open.filename, decay), b);
    BytesArePlaced(open.segment, OpenedFile(open), History(ops, open.filename, decay), b);
  }

  ghost predicate HistoryCovers(ops: seq<Op>, decay: int -> real, open: Event) {
    Partition(MapOf(open.segment, OpenedFile(open), History(ops, open.filename, decay)), open.segment)
  }

  /** One file and one more operation. */
  lemma FileSafeIff(ops: seq<Op>, decay: int -> real, open: Event)
    requires ops != [] && open.segment.Nonempty() && SafeFor(ops[..|ops| - 1], decay, open)
    ensures SafeFor(ops, decay, open) <==> HistoryCovers(ops, decay, open)
  {
    var before, history := History(ops[..|ops| - 1], open.filename, decay), History(ops, open.filename, decay);
    hide Partition, MapOf, AllSafe, Tracks, Known, FirstOpens, TouchOf;
    if Touches(ops[|ops| - 1], open.filename) && Known(FirstOpens(ops[..|ops| - 1]), open.filename) {
      assert history[..|history| - 1] == before;
      OneMoreSafeIff(open.segment, OpenedFile(open), history);
    } else {
      assert history == before;
      SafeRequestsTrack(open.segment, OpenedFile(open), history);
      TracksCovers(MapOf(open.segment, OpenedFile(open), history), open.segment, OpenedFile(open), history);
    }
  }

  lemma TracksCovers(m: SegmentMap, whole: Segment, file: PosixFile, history: seq<Touch>)
    requires Tracks(m, whole, file, history)
    ensures Partition(m, whole)
  {
    hide Partition, Holds;
  }

  /** What is safe in the end was safe before. */
  lemma SafeBefore(ops: seq<Op>, decay: int -> real, open: Event)
    requires ops != [] && SafeFor(ops, decay, open)
    ensures SafeFor(ops[..|ops| - 1], decay, open)
  {
    var before, history := History(ops[..|ops| - 1], open.filename, decay), History(ops, open.filename, decay);
    hide IsSafe, Known, FirstOpens, TouchOf, Touches;
    if history != before {
      assert history[..|history| - 1] == before;
    }
  }

  lemma CoveredIffHistories(ops: seq<Op>, decay: int -> real, n: nat)
    requires n > 0 && |FirstOpens(ops)| <= n
    ensures AllCovered(After(ops, decay, n), FirstOpens(ops)) <==>
            forall i :: 0 <= i < |FirstOpens(ops)| ==> HistoryCovers(ops, decay, FirstOpens(ops)[i])
  {
    MapsFollowHistories(ops, decay, n);
    hide FirstOpens, Partition, MapOf, SlotOf, History, After;
    var s, opens := After(ops, decay, n), FirstOpens(ops);
    forall i | 0 <= i < |opens|
      ensures Partition(s.offsetMaps[SlotOf(i, n)], opens[i].segment) <==> HistoryCovers(ops, decay, opens[i])
    {
      assert Follows(s.offsetMaps[SlotOf(i, n)], opens[i], ops, decay);
    }
  }

  lemma NewIsSafe(ops: seq<Op>, decay: int -> real, i: nat)
    requires ops != [] && |FirstOpens(ops[..|ops| - 1])| <= i < |FirstOpens(ops)|
    ensures SafeFor(ops[..|ops| - 1], decay, FirstOpens(ops)[i])
  {
    NoHistoryBeforeOpen(ops[..|ops| - 1], FirstOpens(ops)[i].filename, decay);
  }

  /** A run is safe exactly if its beginning is and the covers are exact at its end. */
  lemma SafeRunSplits(ops: seq<Op>, decay: int -> real, n: nat)
    requires n > 0 && ops != [] && |FirstOpens(ops)| <= n && AllNonempty(FirstOpens(ops))
    ensures SafeRun(ops, decay) <==>
            SafeRun(ops[..|ops| - 1], decay) && AllCovered(After(ops, decay, n), FirstOpens(ops))
  {
    var prefix, opens := ops[..|ops| - 1], FirstOpens(ops);
    FirstOpensGrow(ops, |prefix|);
    CoveredIffHistories(ops, decay, n);
    forall i | 0 <= i < |FirstOpens(prefix)|
      ensures FirstOpens(prefix)[i] == opens[i]
    {
    }
    var safeBefore, safe := SafeRun(prefix, decay), SafeRun(ops, decay);
    forall i | 0 <= i < |opens|
      ensures SafeFor(ops, decay, opens[i]) ==> SafeFor(prefix, decay, opens[i])
      ensures SafeFor(prefix, decay, opens[i]) ==>
                (SafeFor(ops, decay, opens[i]) <==> HistoryCovers(ops, decay, opens[i]))
      ensures i >= |FirstOpens(prefix)| ==> SafeFor(prefix, decay, opens[i])
    {
      hide SafeFor, HistoryCovers, FirstOpens;
      if SafeFor(ops, decay, opens[i]) {
        SafeBefore(ops, decay, opens[i]);
      }
      if SafeFor(prefix, decay, opens[i]) {
        FileSafeIff(ops, decay, opens[i]);
      }
      if i >= |FirstOpens(prefix)| {
        NewIsSafe(ops, decay, i);
      }
    }
    hide SafeFor, HistoryCovers, FirstOpens, AllCovered;
  }

  /** At every point of the run all maps are exact covers. */
  ghost predicate AlwaysCovered(ops: seq<Op>, decay: int -> real, n: nat)
    requires n > 0
  {
    forall k :: 0 <= k <= |ops| ==> AllCovered(After(ops[..k], decay, n), FirstOpens(ops[..k]))
  }

  /** Over any run on at most n nonempty files, the maps stay exact covers throughout if and only if every
      request is safe. */
  lemma {:induction false} MapsStayExactCoversIff(ops: seq<Op>, decay: int -> real, n: nat)
    requires n > 0 && |FirstOpens(ops)| <= n && AllNonempty(FirstOpens(ops))
    ensures AlwaysCovered(ops, decay, n) <==> SafeRun(ops, decay)
    decreases |ops|
  {
    if ops != [] {
      FirstOpensGrow(ops, |ops| - 1);
      MapsStayExactCoversIff(ops[..|ops| - 1], decay, n);
      SafeRunSplits(ops, decay, n);
      AlwaysSplits(ops, decay, n);
    }
  }

  lemma AlwaysSplits(ops: seq<Op>, decay: int -> real, n: nat)
    requires n > 0 && ops != []
    ensures AlwaysCovered(ops, decay, n) <==>
            AlwaysCovered(ops[..|ops| - 1], decay, n) && AllCovered(After(ops, decay, n), FirstOpens(ops))
  {
    hide AllCovered, After, FirstOpens;
    var prefix := ops[..|ops| - 1];
    assert ops[..|ops|] == ops;
    assert forall k :: 0 <= k <= |prefix| ==> prefix[..k] == ops[..k];
    if AlwaysCovered(prefix, decay, n) && AllCovered(After(ops, decay, n), FirstOpens(ops)) {
      forall k | 0 <= k <= |ops|
        ensures AllCovered(After(ops[..k], decay, n), FirstOpens(ops[..k]))
      {
        if k < |ops| {
          assert AllCovered(After(prefix[..k], decay, n), FirstOpens(prefix[..k]));
        }
      }
    }
    if AlwaysCovered(ops, decay, n) {
      forall k | 0 <= k <= |prefix|
        ensures AllCovered(After(prefix[..k], decay, n), FirstOpens(prefix[..k]))
      {
        assert AllCovered(After(ops[..k], decay, n), FirstOpens(ops[..k]));
      }
    }
  }

  // ----- open counts

  /** Opens minus closes of a file, closes before its first open not counting. */
  function Balance(ops: seq<Op>, filename: string): int {
    if ops == [] then 0 else
      var before, last := Balance(ops[..|ops| - 1], filename), ops[|ops| - 1];
      if !last.OnEvent? || last.event.filename != filename then before
      else if last.event.kind == FileOpen then before + 1
      else if last.event.kind == FileClose && Known(FirstOpens(ops[..|ops| - 1]), filename) then before - 1
      else before
  }

  lemma WrapAdd(x: int, d: int)
    ensures Wrap32(Wrap32(x) + d) == Wrap32(x + d)
  {
  }

  /** A file's active count is its balance in 32-bit arithmetic, from its first open on. */
  ghost predicate Balanced(s: State, ops: seq<Op>, filename: string) {
    if filename in s.fileActiveStatus
    then Known(FirstOpens(ops), filename) && s.fileActiveStatus[filename] == Wrap32(Balance(ops, filename))
    else !Known(FirstOpens(ops), filename) && Balance(ops, filename) == 0
  }

  lemma KnownStep(ops: seq<Op>, filename: string)
    requires ops != []
    ensures var op := ops[|ops| - 1];
            Known(FirstOpens(ops), filename) <==>
            Known(FirstOpens(ops[..|ops| - 1]), filename)
            || (op.OnEvent? && op.event.kind == FileOpen && op.event.filename == filename)
  {
    var before, opens := FirstOpens(ops[..|ops| - 1]), FirstOpens(ops);
    if Known(before, filename) {
      StaysKnown(ops, filename);
    } else if Known(opens, filename) {
      assert opens[..|before|] == before;
      var i :| 0 <= i < |opens| && opens[i].filename == filename;
    } else if |opens| > |before| {
      assert opens[|before|].filename != filename;
    }
  }

  lemma BalancedStep(s: State, ops: seq<Op>, decay: int -> real, filename: string)
    requires ops != [] && Balanced(s, ops[..|ops| - 1], filename) && SlotsExist(s)
    ensures Balanced(Step(s, ops[|ops| - 1], decay), ops, filename)
  {
    hide Updated, SlotOf, Put;
    KnownStep(ops, filename);
    hide FirstOpens, Known, Wrap32;
    WrapAdd(Balance(ops[..|ops| - 1], filename), 1);
    WrapAdd(Balance(ops[..|ops| - 1], filename), -1);
    WrapOne();
  }

  lemma WrapOne()
    ensures Wrap32(1) == 1
  {
  }

  lemma {:induction false} ActiveCountIsBalance(ops: seq<Op>, decay: int -> real, n: nat, filename: string)
    requires n > 0
    ensures Balanced(After(ops, decay, n), ops, filename)
    decreases |ops|
  {
    if ops != [] {
      ActiveCountIsBalance(ops[..|ops| - 1], decay, n, filename);
      hide Balanced, Step;
      BalancedStep(After(ops[..|ops| - 1], decay, n), ops, decay, filename);
    }
  }

  /** When closes never outnumber opens (and opens stay below 2^32), a file's buffers may go
      exactly when it has been closed as often as it was opened. */
  lemma InactiveIffBalanced(ops: seq<Op>, decay: int -> real, n: nat, filename: string)
    requires n > 0 && 0 <= Balance(ops, filename) < 0x1_0000_0000
    ensures var active := After(ops, decay, n).fileActiveStatus;
            !(filename in active && active[filename] != 0) <==> Balance(ops, filename) == 0
  {
    ActiveCountIsBalance(ops, decay, n, filename);
  }
}
