/** Runs that open one file and read from it, and what such runs do to its map. */
module ReadRuns {

  import opened Segments
  import opened IntervalMap
  import opened SegmentUpdates
  import opened ByteHistory
  import opened Auditor
  import opened AuditorRuns

  function RunOfReads(open: Event, requests: seq<Segment>): seq<Op> {
    if requests == [] then [OnEvent(open)] else
      RunOfReads(open, requests[..|requests| - 1])
      + [OnEvent(Event(open.filename, requests[|requests| - 1], FileRead, open.layer, |requests|))]
  }

  function ReadsOf(requests: seq<Segment>, decay: int -> real): (touches: seq<Touch>)
    ensures |touches| == |requests|
    ensures forall i :: 0 <= i < |touches| ==> touches[i] == Touch(requests[i], Read(decay(i + 1)))
  {
    seq(|requests|, i requires 0 <= i < |requests| => Touch(requests[i], Read(decay(i + 1))))
  }

  lemma ReadsOfOneMore(requests: seq<Segment>, decay: int -> real)
    requires requests != []
    ensures ReadsOf(requests, decay)
         == ReadsOf(requests[..|requests| - 1], decay)
            + [Touch(requests[|requests| - 1], Read(decay(|requests|)))]
  {
  }

  lemma {:induction false} ReadsAreHistory(open: Event, requests: seq<Segment>, decay: int -> real)
    requires open.kind == FileOpen
    ensures FirstOpens(RunOfReads(open, requests)) == [open]
    ensures History(RunOfReads(open, requests), open.filename, decay) == ReadsOf(requests, decay)
    decreases |requests|
  {
    var ops := RunOfReads(open, requests);
    if requests == [] {
      assert FirstOpens([]) == [] && ops[..0] == [];
    } else {
      var init := requests[..|requests| - 1];
      assert ops[..|ops| - 1] == RunOfReads(open, init);
      ReadsAreHistory(open, init, decay);
      ReadsOfOneMore(requests, decay);
      hide ReadsOf, RunOfReads;
      assert [open][0] == open;
    }
  }

  /** The file's map is what the reads make of it. */
  lemma MapAfterReads(open: Event, requests: seq<Segment>, decay: int -> real, n: nat)
    requires open.kind == FileOpen && n > 0
    ensures var s := After(RunOfReads(open, requests), decay, n);
            && open.filename in s.fileSegmentMap && s.fileSegmentMap[open.filename] == SlotOf(0, n)
            && s.offsetMaps[SlotOf(0, n)] == MapOf(open.segment, OpenedFile(open), ReadsOf(requests, decay))
  {
    var ops := RunOfReads(open, requests);
    ReadsAreHistory(open, requests, decay);
    RunRegisters(ops, decay, n);
    MapsFollowHistories(ops, decay, n);
    hide FirstOpens, History, MapOf, After, SlotOf, ReadsOf, RunOfReads;
    assert Follows(After(ops, decay, n).offsetMaps[SlotOf(0, n)], open, ops, decay);
    assert HasSlot(After(ops, decay, n), FirstOpens(ops)[0].filename, SlotOf(0, n));
  }

  // ----- maps after one read

  lemma TwoKeys(m: SegmentMap, whole: Segment, next: int)
    requires Partition(m, whole) && m.Keys == {whole.start, next} && whole.start < next <= whole.end
    ensures KeyOf(m, whole.start) == Segment(whole.start, next - 1) && KeyOf(m, next) == Segment(next, whole.end)
  {
    DisjointOf(m, whole);
    KeySpans(m, whole, whole.start);
    KeySpans(m, whole, next);
    KeysAreNonempty(m);
    hide Partition, Disjoint;
    KeyAtIs(m, whole.start, whole.start);
    KeyAtIs(m, next, next);
  }

  lemma HeldAt(m: SegmentMap, whole: Segment, file: PosixFile, history: seq<Touch>, a: int)
    requires Tracks(m, whole, file, history) && a in m
    ensures m[a].file == FileOf(whole, file, history, a)
  {
    hide FileOf, ScoreOf, CutsOf;
    assert KeyOf(m, a).Covers(a);
    KeyAtIs(m, a, a);
    assert Holds(m, whole, file, history, a);
  }

  /** A read of the first bytes of a file parts them from the rest. */
  lemma FirstRead(file: PosixFile, last: int, end: int, decay: int -> real)
    requires 0 <= end < last
    ensures var m := MapOf(Segment(0, last), file, ReadsOf([Segment(0, end)], decay));
            && Tracks(m, Segment(0, last), file, ReadsOf([Segment(0, end)], decay))
            && m.Keys == {0, end + 1} && KeyOf(m, 0) == Segment(0, end) && KeyOf(m, end + 1) == Segment(end + 1, last)
            && m[0].file == file
  {
    var whole, touches := Segment(0, last), ReadsOf([Segment(0, end)], decay);
    var m := MapOf(whole, file, touches);
    FirstCuts(whole, touches, end);
    SafeRequestsTrack(whole, file, touches);
    hide MapOf, ReadsOf, CutsOf, AllSafe, Partition, Holds;
    TwoKeys(m, whole, end + 1);
    HeldAt(m, whole, file, touches, 0);
    assert FileOf(whole, file, touches[..0], 0) == file;
  }

  lemma FirstCuts(whole: Segment, touches: seq<Touch>, end: int)
    requires whole.start == 0 <= end < whole.end && |touches| == 1 && touches[0].request == Segment(0, end)
    ensures AllSafe(whole, touches) && CutsOf(whole, touches) == {0, end + 1}
  {
    assert touches[..0] == [];
    assert CutsOf(whole, []) == {0};
  }

  // ----- what can happen, at inputs that the code can receive

  /** Of 200 bytes the first 100 are read, and then 50 to 150: bytes 0 to 49 are in no key any more. */
  lemma OverlappingReadLosesBytes(file: PosixFile, decay: int -> real, b: int)
    requires 0 <= b < 50
    ensures !HasByte(MapOf(Segment(0, 199), file, ReadsOf([Segment(0, 99), Segment(50, 150)], decay)), b)
  {
    var first, second := [Segment(0, 99)], Touch(Segment(50, 150), Read(decay(2)));
    var m := MapOf(Segment(0, 199), file, ReadsOf(first, decay));
    FirstRead(file, 199, 99, decay);
    DisjointOf(m, Segment(0, 199));
    assert |m.Keys| == 2;
    ReadsOfOneMore([Segment(0, 99), Segment(50, 150)], decay);
    assert [Segment(0, 99), Segment(50, 150)][..1] == first;
    MapAfterOneMore(Segment(0, 199), file, ReadsOf(first, decay), second);
    hide MapOf, ReadsOf, Tracks, Partition, Disjoint;
    UpdateRefines(m, second.request, second.change);
    ReturnedIff(m, second.request, 0);
    assert IsReturned(m, second.request, 0);
    KeyAtIs(m, 0, b);
    assert Effect(m, LookupKeys(m, second.request), second.request, second.change,
                  Updated(m, second.request, second.change), b);
  }

  /** A read from 500 to 1500 of a fresh file of 1000 bytes: bytes 0 to 499 are in no key any more. */
  lemma ReadPastEndLosesBytes(file: PosixFile, decay: int -> real, b: int)
    requires 0 <= b < 500
    ensures !HasByte(MapOf(Segment(0, 999), file, ReadsOf([Segment(500, 1500)], decay)), b)
  {
    var whole, touch := Segment(0, 999), Touch(Segment(500, 1500), Read(decay(1)));
    var m := MapOf(whole, file, []);
    FreshTracks(whole, file);
    ReadsOfOneMore([touch.request], decay);
    assert ReadsOf([touch.request][..0], decay) == [];
    MapAfterOneMore(whole, file, [], touch);
    assert m.Keys == {0} && KeyOf(m, 0) == whole;
    SoleKeyReturned(m, 0, touch.request);
    hide MapOf, ReadsOf, Tracks, Partition, Disjoint;
    UpdateRefines(m, touch.request, touch.change);
    KeyAtIs(m, 0, b);
    assert Effect(m, LookupKeys(m, touch.request), touch.request, touch.change,
                  Updated(m, touch.request, touch.change), b);
  }

  /** The first 100 of 1000 bytes are read, and then the first 200: byte 50 counts both reads. */
  lemma LargerReadCountsTwice(file: PosixFile, decay: int -> real)
    ensures var m := MapOf(Segment(0, 999), file, ReadsOf([Segment(0, 99), Segment(0, 199)], decay));
            HasByte(m, 50) && ScoreAt(m, 50).frequency == 2
  {
    var whole, requests := Segment(0, 999), [Segment(0, 99), Segment(0, 199)];
    var touches := ReadsOf(requests, decay);
    assert touches[..1][..0] == [];
    FirstCuts(whole, touches[..1], 99);
    SafeRequestsTrack(whole, file, touches);
    assert Holds(MapOf(whole, file, touches), whole, file, touches, 50);
    hide MapOf, Tracks, Holds;
    assert ScoreOf(whole, [], 50).frequency == 0;
    assert ScoreOf(whole, touches[..1], 50).frequency == 1;
  }

  /** The first 100 of 1000 bytes are read, and then 150 to 180: the second read finds nothing. */
  lemma ReadInsideKeyFindsNothing(file: PosixFile, decay: int -> real)
    ensures MapOf(Segment(0, 999), file, ReadsOf([Segment(0, 99), Segment(150, 180)], decay))
         == MapOf(Segment(0, 999), file, ReadsOf([Segment(0, 99)], decay))
  {
    var first, second := [Segment(0, 99)], Touch(Segment(150, 180), Read(decay(2)));
    var m := MapOf(Segment(0, 999), file, ReadsOf(first, decay));
    FirstRead(file, 999, 99, decay);
    assert |m.Keys| == 2;
    ReadsOfOneMore([Segment(0, 99), Segment(150, 180)], decay);
    assert [Segment(0, 99), Segment(150, 180)][..1] == first;
    MapAfterOneMore(Segment(0, 999), file, ReadsOf(first, decay), second);
    hide MapOf, ReadsOf, Partition;
    FindsNothingIff(m, Segment(0, 999), second.request);
  }

  /** A read of no bytes from offset 5 of a fresh file breaks the cover. */
  lemma EmptyReadBreaksCover(file: PosixFile, decay: int -> real)
    ensures !Partition(MapOf(Segment(0, 9), file, ReadsOf([Segment(5, 4)], decay)), Segment(0, 9))
  {
    var touches := ReadsOf([Segment(5, 4)], decay);
    assert touches[..0] == [];
    assert CutsOf(Segment(0, 9), []) == {0};
    OneMoreSafeIff(Segment(0, 9), file, touches);
  }
}
