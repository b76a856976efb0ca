/** Whose buffers the end of a batch deletes: only those of the closed file, as long as there are no more files
    than maps; with one file more it can be the file another one is reading. */
module BufferOwnership {

  import opened Segments
  import opened IntervalMap
  import opened ByteHistory
  import opened Auditor
  import opened AuditorRuns

  // ----- the buffers of a file

  /** Some of the bytes that were moved, by their offsets, at the place they were moved to. */
  predicate IsMovedBy(touch: Touch, d: PosixFile) {
    && touch.change.Move?
    && d == touch.change.destination.(segment := d.segment)
    && 0 <= d.segment.start && d.segment.end <= touch.request.end - touch.request.start
  }

  /** The file as it was opened, or what a move of it has put somewhere. */
  predicate IsBufferOf(file: PosixFile, history: seq<Touch>, d: PosixFile) {
    d == file || exists i :: 0 <= i < |history| && IsMovedBy(history[i], d)
  }

  ghost predicate OwnBuffers(m: SegmentMap, file: PosixFile, history: seq<Touch>) {
    forall s :: s in m ==> IsBufferOf(file, history, m[s].file)
  }

  lemma {:induction false} PutAllOwns(m: SegmentMap, keys: seq<Segment>, f: PosixFile, score: SegmentScore,
                                      file: PosixFile, history: seq<Touch>)
    requires OwnBuffers(m, file, history) && IsBufferOf(file, history, f)
    ensures OwnBuffers(PutAll(m, keys, f, score), file, history)
    decreases |keys|
  {
    if keys != [] {
      PutAllOwns(Put(m, keys[0], f, score), keys[1..], f, score, file, history);
    }
  }

  lemma ApplyOwns(m: SegmentMap, item: Item, touch: Touch, file: PosixFile, history: seq<Touch>)
    requires OwnBuffers(m, file, history) && IsBufferOf(file, history, item.file) && touch in history
    ensures OwnBuffers(Apply(m, item, touch.request, touch.change), file, history)
  {
    var common := touch.request.Intersect(item.key);
    var f := NewFile(touch.change, touch.request, common, item.file);
    if touch.change.Move? {
      assert IsMovedBy(touch, f);
    }
    PutAllOwns(Erase(m, item.key), item.key.Substract(touch.request), item.file, item.score, file, history);
  }

  lemma {:induction false} ApplyAllOwns(m: SegmentMap, items: seq<Item>, touch: Touch, file: PosixFile,
                                        history: seq<Touch>)
    requires OwnBuffers(m, file, history) && touch in history
    requires forall i :: 0 <= i < |items| ==> IsBufferOf(file, history, items[i].file)
    ensures OwnBuffers(ApplyAll(m, items, touch.request, touch.change), file, history)
    decreases |items|
  {
    if items != [] {
      hide Apply, OwnBuffers, IsBufferOf;
      ApplyOwns(m, items[0], touch, file, history);
      ApplyAllOwns(Apply(m, items[0], touch.request, touch.change), items[1..], touch, file, history);
    }
  }

  /** Whatever is asked of a file, its map stores buffers of the file only. */
  lemma {:induction false} MapOwns(whole: Segment, file: PosixFile, history: seq<Touch>)
    ensures OwnBuffers(MapOf(whole, file, history), file, history)
    decreases |history|
  {
    if history != [] {
      var init, last := history[..|history| - 1], history[|history| - 1];
      var m := MapOf(whole, file, init);
      MapOwns(whole, file, init);
      forall d | IsBufferOf(file, init, d)
        ensures IsBufferOf(file, history, d)
      {
        if i :| 0 <= i < |init| && IsMovedBy(init[i], d) {
          assert IsMovedBy(history[i], d);
        }
      }
      hide IsBufferOf, LookupKeys;
      ApplyAllOwns(m, Lookup(m, last.request), last, file, history);
    }
  }

  // ----- no more files than maps

  lemma OpenKnown(ops: seq<Op>, decay: int -> real, n: nat, filename: string) returns (i: nat)
    requires n > 0 && filename in After(ops, decay, n).fileSegmentMap
    ensures i < |FirstOpens(ops)| && FirstOpens(ops)[i].filename == filename
    ensures After(ops, decay, n).fileSegmentMap[filename] == SlotOf(i, n)
  {
    RunRegisters(ops, decay, n);
    hide FirstOpens, After, SlotOf;
    assert Known(FirstOpens(ops), filename);
    i :| 0 <= i < |FirstOpens(ops)| && FirstOpens(ops)[i].filename == filename;
    assert HasSlot(After(ops, decay, n), FirstOpens(ops)[i].filename, SlotOf(i, n));
  }

  /** What a close lets go of, told from the run alone: buffers off the last layer that the file's own reads and
      moves have left in its map, once its opens and closes balance. */
  lemma ReleasesIff(ops: seq<Op>, decay: int -> real, n: nat, i: nat, event: Event, lastLayer: int, d: PosixFile)
    requires n > 0 && |FirstOpens(ops)| <= n && i < |FirstOpens(ops)|
    requires event.filename == FirstOpens(ops)[i].filename
    ensures var open := FirstOpens(ops)[i];
            Releases(After(ops, decay, n), event, lastLayer, d) <==>
            && event.kind == FileClose && d.layer != lastLayer && Wrap32(Balance(ops, open.filename)) == 0
            && HoldsFile(MapOf(open.segment, OpenedFile(open), History(ops, open.filename, decay)), d)
  {
    hide FirstOpens, SlotOf, MapOf, HoldsFile, Balance, After, Wrap32;
    var s, open := After(ops, decay, n), FirstOpens(ops)[i];
    RunRegisters(ops, decay, n);
    MapsFollowHistories(ops, decay, n);
    ActiveCountIsBalance(ops, decay, n, open.filename);
    assert HasSlot(s, open.filename, SlotOf(i, n)) && Follows(s.offsetMaps[SlotOf(i, n)], open, ops, decay);
    KnownHere(FirstOpens(ops), i);
  }

  lemma KnownHere(opens: seq<Event>, i: nat)
    requires i < |opens|
    ensures Known(opens, opens[i].filename)
  {
  }

  /** Every buffer that a close after the run would let go of is one of the closed file. */
  ghost predicate DeletesOwnOnly(ops: seq<Op>, decay: int -> real, n: nat)
    requires n > 0
  {
    forall event, lastLayer, d :: Releases(After(ops, decay, n), event, lastLayer, d) ==>
      IsOwn(FirstOpens(ops), History(ops, event.filename, decay), event.filename, d)
  }

  ghost predicate IsOwn(opens: seq<Event>, history: seq<Touch>, filename: string, d: PosixFile) {
    exists i :: 0 <= i < |opens| && opens[i].filename == filename && IsBufferOf(OpenedFile(opens[i]), history, d)
  }

  lemma FewFilesDeleteOwnOnly(ops: seq<Op>, decay: int -> real, n: nat)
    requires n > 0 && |FirstOpens(ops)| <= n
    ensures DeletesOwnOnly(ops, decay, n)
  {
    forall event, lastLayer, d | Releases(After(ops, decay, n), event, lastLayer, d)
      ensures IsOwn(FirstOpens(ops), History(ops, event.filename, decay), event.filename, d)
    {
      var i := OpenKnown(ops, decay, n, event.filename);
      ReleasesIff(ops, decay, n, i, event, lastLayer, d);
      hide After, FirstOpens, History, MapOf;
      var open := FirstOpens(ops)[i];
      MapOwns(open.segment, OpenedFile(open), History(ops, open.filename, decay));
    }
  }

  // ----- one file more than maps

  /** Files named by length, each opened once. */
  function OpenOf(i: nat): Event {
    Event(seq(i, _ => 'a'), Segment(0, 9), FileOpen, 0, 0)
  }

  function CloseOf(i: nat): Event {
    OpenOf(i).(kind := FileClose)
  }

  function OpenRun(k: nat): (ops: seq<Op>)
    ensures |ops| == k
  {
    if k == 0 then [] else OpenRun(k - 1) + [OnEvent(OpenOf(k - 1))]
  }

  lemma NamesDiffer(i: nat, j: nat)
    requires i != j
    ensures OpenOf(i).filename != OpenOf(j).filename
  {
    assert |OpenOf(i).filename| == i && |OpenOf(j).filename| == j;
  }

  lemma {:induction false} OpenRunOpens(k: nat)
    ensures |FirstOpens(OpenRun(k))| == k
    ensures forall i :: 0 <= i < k ==> FirstOpens(OpenRun(k))[i] == OpenOf(i)
    ensures forall i: nat :: Balance(OpenRun(k), OpenOf(i).filename) == if i < k then 1 else 0
  {
    if k > 0 {
      OpenRunOpens(k - 1);
      var before, ops := OpenRun(k - 1), OpenRun(k);
      assert ops[..|ops| - 1] == before;
      forall i: nat | i != k - 1
        ensures OpenOf(i).filename != OpenOf(k - 1).filename
      {
        NamesDiffer(i, k - 1);
      }
      hide OpenOf;
    }
  }

  lemma NameIsNew(k: nat)
    ensures !Known(FirstOpens(OpenRun(k)), OpenOf(k).filename)
  {
    OpenRunOpens(k);
    hide OpenOf, FirstOpens, OpenRun;
    forall i: nat | i < k
      ensures OpenOf(i).filename != OpenOf(k).filename
    {
      NamesDiffer(i, k);
    }
  }

  lemma OpenIsStep(k: nat, decay: int -> real, n: nat)
    requires n > 0 && k > 0
    ensures var s, e := After(OpenRun(k - 1), decay, n), OpenOf(k - 1);
            SlotsExist(s) && After(OpenRun(k), decay, n) == Opened(Created(s, e), e)
  {
    hide Created, Opened;
    assert OpenRun(k)[..k - 1] == OpenRun(k - 1);
  }

  /** A new file is stored in its slot's map. */
  lemma NewOpenStored(s: State, before: seq<Event>, e: Event, n: nat)
    requires Registered(s, before, n) && SlotsExist(s) && !Known(before, e.filename)
    ensures var slot, s' := SlotOf(|before|, n), Opened(Created(s, e), e);
            slot < |s'.offsetMaps| && HoldsFile(s'.offsetMaps[slot], OpenedFile(e))
  {
    NewOpenMaps(s, before, e, n);
    hide *;
    PutHolds(s.offsetMaps[SlotOf(|before|, n)], e.segment, OpenedFile(e), SegmentScore(0, 0.0));
  }

  lemma LastOpenStored(k: nat, decay: int -> real, n: nat)
    requires n > 0
    ensures HoldsFile(After(OpenRun(k + 1), decay, n).offsetMaps[SlotOf(k, n)], OpenedFile(OpenOf(k)))
  {
    hide *;
    OpenRunOpens(k);
    NameIsNew(k);
    OpenIsStep(k + 1, decay, n);
    RunRegisters(OpenRun(k), decay, n);
    NewOpenStored(After(OpenRun(k), decay, n), FirstOpens(OpenRun(k)), OpenOf(k), n);
  }

  lemma PutHolds(m: SegmentMap, key: Segment, file: PosixFile, score: SegmentScore)
    ensures HoldsFile(Put(m, key, file, score), file)
  {
    var m' := Put(m, key, file, score);
    assert key.start in m' && m'[key.start].file == file;
  }

  lemma SharedSlot(n: nat)
    requires n > 0
    ensures SlotOf(0, n) == SlotOf(n, n)
  {
    var x := n + 1;
    var d := x / n - 1 / n - 1;
    assert d * n == 1 % n - x % n by {
      assert x == x / n * n + x % n && 1 == 1 / n * n + 1 % n;
    }
    if d > 0 {
      AtLeastFactor(d, n);
    } else if d < 0 {
      AtLeastFactor(-d, n);
    }
  }

  /** The run in which n + 1 files are opened, and the first of them is closed. */
  function OneTooMany(n: nat): seq<Op> {
    OpenRun(n + 1) + [OnEvent(CloseOf(0))]
  }

  lemma OneTooManyOpens(n: nat)
    requires n > 0
    ensures |FirstOpens(OneTooMany(n))| == n + 1
    ensures forall i :: 0 <= i <= n ==> FirstOpens(OneTooMany(n))[i] == OpenOf(i)
    ensures Balance(OneTooMany(n), OpenOf(n).filename) == 1
  {
    var opening, ops := OpenRun(n + 1), OneTooMany(n);
    assert ops[..|ops| - 1] == opening && ops[|ops| - 1] == OnEvent(CloseOf(0));
    OpenRunOpens(n + 1);
    NamesDiffer(0, n);
    assert CloseOf(0).filename == OpenOf(0).filename;
    hide OpenOf, OpenRun, OneTooMany;
  }

  lemma OneTooManyUntouched(n: nat, decay: int -> real)
    ensures History(OneTooMany(n), CloseOf(0).filename, decay) == []
  {
    var opening, ops := OpenRun(n + 1), OneTooMany(n);
    assert ops[..|ops| - 1] == opening && ops[|ops| - 1] == OnEvent(CloseOf(0));
    NoTouches(n + 1, CloseOf(0).filename, decay);
    hide OpenOf, OpenRun, OneTooMany;
  }

  lemma LastIsNotOwn(n: nat, decay: int -> real)
    requires n > 0
    ensures !IsOwn(FirstOpens(OneTooMany(n)), History(OneTooMany(n), CloseOf(0).filename, decay),
                   CloseOf(0).filename, OpenedFile(OpenOf(n)))
  {
    OneTooManyUntouched(n, decay);
    NamesDiffer(0, n);
    assert CloseOf(0).filename == OpenOf(0).filename;
    hide OpenOf, CloseOf, FirstOpens;
  }

  /** Closing the first file deletes the last one, which is open. */
  lemma OneFileTooMany(decay: int -> real, n: nat)
    requires n > 0
    ensures var ops, close, open := OneTooMany(n), CloseOf(0), OpenOf(n);
            && |FirstOpens(ops)| == n + 1
            && Releases(After(ops, decay, n), close, 1, OpenedFile(open))
            && Balance(ops, open.filename) == 1
            && !IsOwn(FirstOpens(ops), History(ops, close.filename, decay), close.filename, OpenedFile(open))
  {
    OneTooManyOpens(n);
    LastIsNotOwn(n, decay);
    LastOpenStored(n, decay, n);
    FirstIsReleased(decay, n, OpenedFile(OpenOf(n)));
  }

  /** Nothing is read or moved. */
  lemma {:induction false} NoTouches(k: nat, filename: string, decay: int -> real)
    ensures History(OpenRun(k), filename, decay) == []
  {
    if k > 0 {
      assert OpenRun(k)[..k - 1] == OpenRun(k - 1);
      NoTouches(k - 1, filename, decay);
    }
  }

  /** The first file's map is the last one's. */
  lemma FirstIsReleased(decay: int -> real, n: nat, d: PosixFile)
    requires n > 0 && d.layer == 0
    requires HoldsFile(After(OpenRun(n + 1), decay, n).offsetMaps[SlotOf(n, n)], d)
    ensures Releases(After(OneTooMany(n), decay, n), CloseOf(0), 1, d)
  {
    var opening, ops, e := OpenRun(n + 1), OneTooMany(n), CloseOf(0);
    assert ops[..|ops| - 1] == opening && ops[|ops| - 1] == OnEvent(e);
    var s := After(opening, decay, n);
    assert After(ops, decay, n) == Closed(s, e);
    SharedSlot(n);
    OpenRunOpens(n + 1);
    RunRegisters(opening, decay, n);
    ActiveCountIsBalance(opening, decay, n, e.filename);
    assert e.filename == OpenOf(0).filename && e.kind == FileClose;
    hide SlotOf, FirstOpens, HoldsFile, Balance, OpenOf, CloseOf, OpenRun, OneTooMany, After;
    assert HasSlot(s, e.filename, SlotOf(0, n));
    WrapOne();
  }

  /** Runs on at most k files let go of own buffers only, whatever happens in them, if and only if there are
      k maps at least. */
  lemma DeletesOwnOnlyIff(decay: int -> real, n: nat, k: nat)
    requires n > 0
    ensures (forall ops :: |FirstOpens(ops)| <= k ==> DeletesOwnOnly(ops, decay, n)) <==> k <= n
  {
    if k <= n {
      forall ops | |FirstOpens(ops)| <= k
        ensures DeletesOwnOnly(ops, decay, n)
      {
        FewFilesDeleteOwnOnly(ops, decay, n);
      }
    } else {
      OneFileTooMany(decay, n);
      var ops := OneTooMany(n);
      assert |FirstOpens(ops)| <= k && !DeletesOwnOnly(ops, decay, n);
    }
  }
}
