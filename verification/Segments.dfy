/** Byte ranges of a file, both ends inclusive, and the arithmetic the auditor does on them. */
module Segments {

  datatype Segment = Segment(start: int, end: int) {

    function GetSize(): int {
      end - start + 1
    }

    predicate Nonempty() {
      start <= end
    }

    ghost predicate Covers(b: int) {
      start <= b <= end
    }

    predicate Contains(o: Segment) {
      || (start <= o.start && end >= o.end)
      || (start <= o.end && end >= o.end)
    }

    /** The parts of this segment outside o, when o reaches into it. */
    function Substract(o: Segment): seq<Segment> {
      var cutLeft := start < o.start && end >= o.end;
      var left := if cutLeft then [Segment(start, o.start - 1)] else [];
      var right := if start <= o.end && end > o.end then [Segment(o.end + 1, end)] else [];
      left + right
    }

    function Intersect(o: Segment): Segment {
      Segment(if start < o.start then o.start else start, if end < o.end then end else o.end)
    }
  }

  /** The segments that replace entry k when o is applied to it: the leftovers, then the common part. */
  function SplitBy(k: Segment, o: Segment): seq<Segment> {
    k.Substract(o) + [o.Intersect(k)]
  }

  /** The segments are nonempty, do not overlap, and cover exactly the bytes of k. */
  ghost predicate ExactSplit(k: Segment, parts: seq<Segment>) {
    && (forall i :: 0 <= i < |parts| ==> parts[i].Nonempty())
    && (forall b, i, j :: 0 <= i < j < |parts| ==> !(parts[i].Covers(b) && parts[j].Covers(b)))
    && (forall b :: k.Covers(b) <==> CoveredBySome(parts, b))
  }

  ghost predicate CoveredBySome(parts: seq<Segment>, b: int) {
    exists i :: 0 <= i < |parts| && parts[i].Covers(b)
  }

  /** Substract and Intersect split k exactly unless k starts after o ends, or k both starts
      and ends before o does. */
  lemma SplitIsExact(k: Segment, o: Segment)
    requires k.Nonempty() && o.Nonempty()
    ensures ExactSplit(k, SplitBy(k, o)) <==> k.start <= o.end && (o.start <= k.start || o.end <= k.end)
  {
    var parts := SplitBy(k, o);
    var exact := k.start <= o.end && (o.start <= k.start || o.end <= k.end);
    if exact {
      forall b
        ensures k.Covers(b) <==> CoveredBySome(parts, b)
      {
        if k.Covers(b) {
          assert parts[|parts| - 1].Covers(b) || parts[0].Covers(b) || (|parts| == 3 && parts[1].Covers(b));
        }
      }
    } else {
      assert |parts| == 1;
      assert k.Covers(k.start) && !parts[0].Covers(k.start);
    }
  }

  predicate Overlap(k: Segment, o: Segment) {
    k.start <= o.end && o.start <= k.end
  }

  /** Where k and o overlap, the common part has exactly the bytes of both, and the parts together have
      all bytes of k but those before o, and these as well unless o goes on behind k. */
  lemma SplitKeeps(k: Segment, o: Segment)
    requires k.Nonempty() && o.Nonempty() && Overlap(k, o)
    ensures forall b :: o.Intersect(k).Covers(b) <==> k.Covers(b) && o.Covers(b)
    ensures forall b :: CoveredBySome(SplitBy(k, o), b) <==> k.Covers(b) && !(b < o.start && k.end < o.end)
  {
    var parts := SplitBy(k, o);
    forall b
      ensures CoveredBySome(parts, b) <==> k.Covers(b) && !(b < o.start && k.end < o.end)
    {
      if k.Covers(b) && !(b < o.start && k.end < o.end) {
        assert parts[|parts| - 1].Covers(b) || parts[0].Covers(b) || (|parts| == 3 && parts[1].Covers(b));
      }
    }
  }

  /** A file, or a piece of one, on a storage layer. */
  datatype PosixFile = PosixFile(filename: string, segment: Segment, layer: int) {
    function GetSize(): int {
      segment.GetSize()
    }
  }
}
