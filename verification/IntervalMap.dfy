/** The per-file interval map of the auditor: scored segments, keyed by where they start, that
    reads and moves split and re-put. It refines a score and a location for every byte. */
module IntervalMap {

  import opened Segments

  datatype SegmentScore = SegmentScore(frequency: nat, lrf: real)

  /** What is stored under a key; the key itself is the segment's start, because that is all
      that Segment's ordering looks at. */
  datatype Entry = Entry(end: int, file: PosixFile, score: SegmentScore)

  type SegmentMap = map<int, Entry>

  /** A key-value pair as lookups return it. */
  datatype Item = Item(key: Segment, file: PosixFile, score: SegmentScore)

  function KeyOf(m: SegmentMap, start: int): Segment
    requires start in m
  {
    Segment(start, m[start].end)
  }

  function ItemOf(m: SegmentMap, start: int): Item
    requires start in m
  {
    Item(KeyOf(m, start), m[start].file, m[start].score)
  }

  function Put(m: SegmentMap, key: Segment, file: PosixFile, score: SegmentScore): SegmentMap {
    m[key.start := Entry(key.end, file, score)]
  }

  function Erase(m: SegmentMap, key: Segment): SegmentMap {
    m - {key.start}
  }

  // ----- keys in order

  lemma PickFrom(s: set<int>)
    ensures s == {} || exists x :: x in s
  {
    if !(exists x :: x in s) {
      assert s == {};
    }
  }

  lemma {:induction false} SomeLeast(s: set<int>)
    requires s != {}
    ensures exists k :: k in s && forall x :: x in s ==> k <= x
    decreases |s|
  {
    PickFrom(s);
    var x: int :| x in s;
    var rest := s - {x};
    assert forall y :: y in s ==> y == x || y in rest;
    if rest == {} {
      assert x in s && forall y :: y in s ==> x <= y;
    } else {
      SomeLeast(rest);
      var k :| k in rest && forall y :: y in rest ==> k <= y;
      if k < x {
        assert k in s && forall y :: y in s ==> k <= y;
      } else {
        assert x in s && forall y :: y in s ==> x <= y;
      }
    }
  }

  function Least(s: set<int>): (k: int)
    requires s != {}
    ensures k in s && forall x :: x in s ==> k <= x
  {
    SomeLeast(s);
    var k :| k in s && forall x :: x in s ==> k <= x;
    k
  }

  /** The elements of a set in ascending order, as a tree of keys hands them out. */
  function Sorted(s: set<int>): (keys: seq<int>)
    ensures |keys| == |s|
    ensures forall x :: x in keys <==> x in s
    ensures forall i, j :: 0 <= i < j < |keys| ==> keys[i] < keys[j]
    decreases |s|
  {
    if s == {} then [] else [Least(s)] + Sorted(s - {Least(s)})
  }

  /** The first position whose key is not below x. */
  function LowerBound(keys: seq<int>, x: int): (i: nat)
    ensures i <= |keys|
    ensures forall j :: 0 <= j < i ==> keys[j] < x
    ensures i < |keys| ==> keys[i] >= x
  {
    if keys == [] || keys[0] >= x then 0 else 1 + LowerBound(keys[1..], x)
  }

  // ----- the lookup

  /** A key that the lookup takes, or goes on from. */
  predicate Related(k: Segment, request: Segment) {
    request.Contains(k) || k.Contains(request)
  }

  /** Where the keys from position i on stop being related to the request. */
  function RunEnd(m: SegmentMap, keys: seq<int>, i: nat, request: Segment): (j: nat)
    requires i <= |keys| && forall x :: x in keys ==> x in m
    ensures i <= j <= |keys|
    ensures forall x :: i <= x < j ==> Related(KeyOf(m, keys[x]), request)
    ensures j < |keys| ==> !Related(KeyOf(m, keys[j]), request)
    decreases |keys| - i
  {
    if i == |keys| || !Related(KeyOf(m, keys[i]), request) then i else RunEnd(m, keys, i + 1, request)
  }

  /** Where a lookup among several keys starts: at the first key that does not start before the
      request, or one key earlier if the request contains that one. */
  function RunStart(m: SegmentMap, keys: seq<int>, request: Segment): (i: nat)
    requires forall x :: x in keys ==> x in m
    ensures i <= |keys|
  {
    var bound := LowerBound(keys, request.start);
    if 0 < bound < |keys| && request.Contains(KeyOf(m, keys[bound - 1])) then bound - 1 else bound
  }

  /** The keys that a lookup returns. A sole key is returned whatever the request is. */
  function LookupKeys(m: SegmentMap, request: Segment): (found: seq<int>)
    ensures forall s :: s in found ==> s in m
  {
    var keys := Sorted(m.Keys);
    if |keys| <= 1 then keys else
      var from := RunStart(m, keys, request);
      Between(keys, from, RunEnd(m, keys, from, request))
  }

  function Between(keys: seq<int>, from: nat, to: nat): (part: seq<int>)
    requires from <= to <= |keys|
    ensures forall x :: x in part ==> x in keys
  {
    keys[from..to]
  }

  function ItemsAt(m: SegmentMap, keys: seq<int>): (items: seq<Item>)
    requires forall x :: x in keys ==> x in m
    ensures |items| == |keys|
    ensures forall i :: 0 <= i < |keys| ==> items[i] == ItemOf(m, keys[i])
  {
    if keys == [] then [] else [ItemOf(m, keys[0])] + ItemsAt(m, keys[1..])
  }

  function Lookup(m: SegmentMap, request: Segment): seq<Item> {
    ItemsAt(m, LookupKeys(m, request))
  }

  /** The lookup of one server, by position in the order of its keys. */
  method ContainsInServer(m: SegmentMap, request: Segment) returns (values: seq<Item>)
    ensures values == Lookup(m, request)
  {
    hide Sorted, RunStart, RunEnd, Between, ItemsAt;
    values := [];
    var keys := Sorted(m.Keys);
    if |keys| == 0 {
      values := ItemsAt(m, keys);
    } else if |keys| == 1 {
      OneItem(m, keys);
      values := [ItemOf(m, keys[0])];
    } else {
      var i := StartOfRun(m, keys, request);
      values := CollectRun(m, keys, i, request);
    }
  }

  lemma OneItem(m: SegmentMap, keys: seq<int>)
    requires |keys| == 1 && keys[0] in m
    ensures ItemsAt(m, keys) == [ItemOf(m, keys[0])]
  {
    assert ItemsAt(m, keys[1..]) == [];
  }

  method StartOfRun(m: SegmentMap, keys: seq<int>, request: Segment) returns (i: nat)
    requires forall x :: x in keys ==> x in m
    ensures i == RunStart(m, keys, request)
  {
    i := LowerBound(keys, request.start);
    if i == |keys| {
      return;
    }
    if i != 0 {
      i := i - 1;
      if !request.Contains(KeyOf(m, keys[i])) {
        i := i + 1;
      }
    }
  }

  method CollectRun(m: SegmentMap, keys: seq<int>, from: nat, request: Segment) returns (values: seq<Item>)
    requires from <= |keys| && forall x :: x in keys ==> x in m
    ensures values == ItemsAt(m, Between(keys, from, RunEnd(m, keys, from, request)))
  {
    hide ItemsAt;
    values := [];
    assert values == ItemsAt(m, Between(keys, from, from)) by {
      NoItems(m, Between(keys, from, from));
    }
    var i := from;
    while i < |keys|
      invariant from <= i <= |keys| && RunEnd(m, keys, i, request) == RunEnd(m, keys, from, request)
      invariant values == ItemsAt(m, Between(keys, from, i))
    {
      if !Related(KeyOf(m, keys[i]), request) {
        break;
      }
      ItemsAtOneMore(m, Between(keys, from, i), keys[i]);
      assert Between(keys, from, i) + [keys[i]] == Between(keys, from, i + 1);
      values := values + [ItemOf(m, keys[i])];
      i := i + 1;
    }
  }

  lemma NoItems(m: SegmentMap, keys: seq<int>)
    requires keys == []
    ensures ItemsAt(m, keys) == []
  {
  }

  lemma {:induction false} ItemsAtOneMore(m: SegmentMap, keys: seq<int>, k: int)
    requires k in m && forall x :: x in keys ==> x in m
    ensures ItemsAt(m, keys + [k]) == ItemsAt(m, keys) + [ItemOf(m, k)]
  {
    if keys == [] {
      assert keys + [k] == [k];
    } else {
      assert (keys + [k])[1..] == keys[1..] + [k];
      ItemsAtOneMore(m, keys[1..], k);
    }
  }

  ghost predicate IsListed(items: seq<Item>, start: int) {
    exists i :: 0 <= i < |items| && items[i].key.start == start
  }

  /** Stores the old file and score under every leftover. */
  function PutAll(m: SegmentMap, keys: seq<Segment>, file: PosixFile, score: SegmentScore): SegmentMap
    decreases |keys|
  {
    if keys == [] then m else PutAll(Put(m, keys[0], file, score), keys[1..], file, score)
  }

  /** One looked-up item split by the request: leftovers keep what they had, the common part
      gets a new file and score. */
  function Replace(m: SegmentMap, item: Item, request: Segment, file: PosixFile, score: SegmentScore): SegmentMap {
    Put(PutAll(Erase(m, item.key), item.key.Substract(request), item.file, item.score),
        request.Intersect(item.key), file, score)
  }

  /** A read or a move: how it changes the file and the score of the bytes it applies to. */
  datatype Change = Read(decay: real) | Move(destination: PosixFile)

  function NewScore(change: Change, score: SegmentScore): SegmentScore {
    match change
    case Read(decay) => SegmentScore(score.frequency + 1, score.lrf + decay)
    case Move(_) => score
  }

  /** A move records the offsets of the common part from the start of the moved source. */
  function NewFile(change: Change, request: Segment, common: Segment, file: PosixFile): PosixFile {
    match change
    case Read(_) => file
    case Move(destination) =>
      destination.(segment := Segment(common.start - request.start, common.end - request.start))
  }

  function Apply(m: SegmentMap, item: Item, request: Segment, change: Change): SegmentMap {
    Replace(m, item, request,
            NewFile(change, request, request.Intersect(item.key), item.file), NewScore(change, item.score))
  }

  function ApplyAll(m: SegmentMap, items: seq<Item>, request: Segment, change: Change): SegmentMap
    decreases |items|
  {
    if items == [] then m else ApplyAll(Apply(m, items[0], request, change), items[1..], request, change)
  }

  /** The map after a read or a move of the requested bytes. */
  function Updated(m: SegmentMap, request: Segment, change: Change): SegmentMap {
    ApplyAll(m, Lookup(m, request), request, change)
  }

  // ----- disjoint maps and partitions

  /** The keys are nonempty and pairwise disjoint. */
  ghost predicate Disjoint(m: SegmentMap) {
    && (forall s :: s in m ==> KeyOf(m, s).Nonempty())
    && (forall s, t, b :: s in m && t in m && KeyOf(m, s).Covers(b) && KeyOf(m, t).Covers(b) ==> s == t)
  }

  /** And they cover exactly the bytes of `whole`. */
  ghost predicate Partition(m: SegmentMap, whole: Segment) {
    Disjoint(m) && forall b :: whole.Covers(b) <==> HasByte(m, b)
  }

  ghost predicate HasByte(m: SegmentMap, b: int) {
    exists s :: s in m && KeyOf(m, s).Covers(b)
  }

  /** The key whose segment holds byte b. */
  ghost function KeyAt(m: SegmentMap, b: int): (s: int)
    requires HasByte(m, b)
    ensures s in m && KeyOf(m, s).Covers(b)
  {
    var s :| s in m && KeyOf(m, s).Covers(b);
    s
  }

  ghost function ScoreAt(m: SegmentMap, b: int): SegmentScore
    requires HasByte(m, b)
  {
    m[KeyAt(m, b)].score
  }

  ghost function FileAt(m: SegmentMap, b: int): PosixFile
    requires HasByte(m, b)
  {
    m[KeyAt(m, b)].file
  }

  lemma KeyAtIs(m: SegmentMap, s: int, b: int)
    requires Disjoint(m) && s in m && KeyOf(m, s).Covers(b)
    ensures HasByte(m, b) && KeyAt(m, b) == s
  {
  }

  /** A key starts inside another key only if they are the same. */
  lemma StartsAreApart(m: SegmentMap, a: int, s: int)
    requires Disjoint(m) && a in m && s in m && KeyOf(m, a).Covers(s)
    ensures s == a
  {
    assert KeyOf(m, s).Covers(s);
  }

  // ----- one entry that overlaps the request

  function Max(a: int, b: int): int {
    if a < b then b else a
  }

  function Min(a: int, b: int): int {
    if a < b then a else b
  }

  /** The pieces a key is split into, given where it starts and ends. */
  function Shape(m: SegmentMap, a: int, request: Segment, file: PosixFile, score: SegmentScore): SegmentMap
    requires a in m
  {
    var entry := m[a];
    var rest := m - {a};
    var withLeft := if a < request.start && request.end <= entry.end
                    then rest[a := Entry(request.start - 1, entry.file, entry.score)] else rest;
    var withRight := if request.end < entry.end then withLeft[request.end + 1 := entry] else withLeft;
    withRight[Max(a, request.start) := Entry(Min(request.end, entry.end), file, score)]
  }

  lemma ReplaceShape(m: SegmentMap, a: int, request: Segment, file: PosixFile, score: SegmentScore)
    requires a in m && Overlap(KeyOf(m, a), request)
    ensures Replace(m, ItemOf(m, a), request, file, score) == Shape(m, a, request, file, score)
  {
    var k := KeyOf(m, a);
    var left := k.Substract(request);
    var rest, f, o := Erase(m, k), m[a].file, m[a].score;
    if a < request.start && request.end < k.end {
      assert left == [Segment(a, request.start - 1), Segment(request.end + 1, k.end)];
      assert left[1..] == [Segment(request.end + 1, k.end)] && left[1..][1..] == [];
      assert PutAll(rest, left, f, o) == PutAll(Put(rest, left[0], f, o), left[1..], f, o)
          == Put(Put(rest, left[0], f, o), left[1], f, o);
    } else if a < request.start && request.end == k.end {
      assert left == [Segment(a, request.start - 1)] && left[1..] == [];
      assert PutAll(rest, left, f, o) == Put(rest, left[0], f, o);
    } else if request.end < k.end {
      assert left == [Segment(request.end + 1, k.end)] && left[1..] == [];
      assert PutAll(rest, left, f, o) == Put(rest, left[0], f, o);
    } else {
      assert left == [];
    }
  }

  /** The key of m that a key of the split map stems from. */
  ghost function Origin(a: int, e: int, s: int): int {
    if a <= s <= e then a else s
  }

  /** Every key of the split map lies inside its origin, is not empty, and carries the right values. */
  lemma ShapeKeys(m: SegmentMap, a: int, request: Segment, file: PosixFile, score: SegmentScore, s: int)
    requires Disjoint(m) && a in m && request.Nonempty() && Overlap(KeyOf(m, a), request)
    requires s in Shape(m, a, request, file, score)
    ensures var m' := Shape(m, a, request, file, score);
            var o := Origin(a, m[a].end, s);
            var common := request.Covers(s) && o == a;
            && o in m && KeyOf(m', s).Nonempty()
            && (forall b :: KeyOf(m', s).Covers(b) ==>
                  KeyOf(m, o).Covers(b) && (o == a ==> (request.Covers(b) <==> common)))
            && m'[s].file == (if common then file else m[o].file)
            && m'[s].score == (if common then score else m[o].score)
  {
    if s in m && KeyOf(m, a).Covers(s) {
      StartsAreApart(m, a, s);
    }
  }

  /** Bytes that splitting a key loses: those before the request, if the request goes on behind the key. */
  predicate Loses(k: Segment, request: Segment, b: int) {
    b < request.start && k.end < request.end
  }

  /** Every other byte keeps a key: its old one, or the piece it falls into. */
  lemma ShapeCovers(m: SegmentMap, a: int, request: Segment, file: PosixFile, score: SegmentScore, b: int)
    requires Disjoint(m) && a in m && request.Nonempty() && Overlap(KeyOf(m, a), request)
    ensures HasByte(Shape(m, a, request, file, score), b)
            <==> HasByte(m, b) && !(KeyAt(m, b) == a && Loses(KeyOf(m, a), request, b))
  {
    var m' := Shape(m, a, request, file, score);
    if HasByte(m', b) {
      var s := KeyAt(m', b);
      ShapeKeys(m, a, request, file, score, s);
      KeyAtIs(m, Origin(a, m[a].end, s), b);
    }
    if HasByte(m, b) && !(KeyAt(m, b) == a && Loses(KeyOf(m, a), request, b)) {
      var s := KeyAt(m, b);
      var piece := if s != a then s
                   else if b < request.start then a
                   else if b > request.end then request.end + 1
                   else Max(a, request.start);
      if s != a && KeyOf(m, a).Covers(s) {
        StartsAreApart(m, a, s);
      }
      assert piece in m' && KeyOf(m', piece).Covers(b);
    }
  }

  /** Two pieces of the same key do not overlap. */
  lemma ShapeDisjoint(m: SegmentMap, a: int, request: Segment, file: PosixFile, score: SegmentScore)
    requires Disjoint(m) && a in m && request.Nonempty() && Overlap(KeyOf(m, a), request)
    ensures Disjoint(Shape(m, a, request, file, score))
  {
    var m' := Shape(m, a, request, file, score);
    forall s | s in m'
      ensures KeyOf(m', s).Nonempty()
    {
      ShapeKeys(m, a, request, file, score, s);
    }
    forall s, t, b | s in m' && t in m' && KeyOf(m', s).Covers(b) && KeyOf(m', t).Covers(b)
      ensures s == t
    {
      ShapeKeys(m, a, request, file, score, s);
      ShapeKeys(m, a, request, file, score, t);
      assert Origin(a, m[a].end, s) == Origin(a, m[a].end, t);
      if s in m && KeyOf(m, a).Covers(s) {
        StartsAreApart(m, a, s);
      }
      if t in m && KeyOf(m, a).Covers(t) {
        StartsAreApart(m, a, t);
      }
    }
  }

  /** What one split does to a byte. */
  ghost predicate SplitEffect(m: SegmentMap, a: int, request: Segment, file: PosixFile, score: SegmentScore,
                              m': SegmentMap, b: int)
    requires a in m
  {
    && (HasByte(m', b) <==> HasByte(m, b) && !(KeyAt(m, b) == a && Loses(KeyOf(m, a), request, b)))
    && (HasByte(m', b) ==>
          var hit := KeyAt(m, b) == a && request.Covers(b);
          && (KeyAt(m, b) != a ==> KeyOf(m', KeyAt(m', b)) == KeyOf(m, KeyAt(m, b)))
          && (hit ==> KeyOf(m', KeyAt(m', b)) == request.Intersect(KeyOf(m, a)))
          && KeyOf(m, KeyAt(m, b)).Covers(KeyAt(m', b))
          && FileAt(m', b) == (if hit then file else FileAt(m, b))
          && ScoreAt(m', b) == (if hit then score else ScoreAt(m, b)))
  }

  /** Erasing an entry that overlaps the request and putting back what is left of it keeps all other
      entries, and of its own bytes gives the common ones the new file and score; only bytes before the
      request are lost, and these only if the request goes on behind the entry. */
  lemma ReplaceSplits(m: SegmentMap, a: int, request: Segment, file: PosixFile, score: SegmentScore)
    requires Disjoint(m) && a in m && request.Nonempty() && Overlap(KeyOf(m, a), request)
    ensures var m' := Replace(m, ItemOf(m, a), request, file, score);
            && Disjoint(m')
            && (forall t :: t in m && t != a ==> t in m' && m'[t] == m[t])
            && (forall b :: SplitEffect(m, a, request, file, score, m', b))
  {
    var m' := Shape(m, a, request, file, score);
    ReplaceShape(m, a, request, file, score);
    ShapeDisjoint(m, a, request, file, score);
    forall t | t in m && t != a
      ensures t in m' && m'[t] == m[t]
    {
      if KeyOf(m, a).Covers(t) {
        StartsAreApart(m, a, t);
      }
    }
    forall b
      ensures SplitEffect(m, a, request, file, score, m', b)
    {
      ShapeCovers(m, a, request, file, score, b);
      if HasByte(m', b) {
        var s := KeyAt(m', b);
        ShapeKeys(m, a, request, file, score, s);
        var o := Origin(a, m[a].end, s);
        KeyAtIs(m, o, b);
        assert KeyOf(m, o).Covers(s);
      }
    }
  }
}
