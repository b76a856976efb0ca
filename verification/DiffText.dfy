/** The text of a unified diff: how hunks are printed, and a reader of the format, which gives back what was
    printed and can patch with it. */
module DiffText {

  import opened Options
  import DecimalFormat

  /** A printed line: ' ' for common, '-' for removed, '+' for added. */
  datatype Line = Line(mark: char, text: string)

  /** A hunk as printed; starts are counted from one. */
  datatype HunkText = HunkText(leftStart: nat, rightStart: nat, adds: nat, removes: nat, common: nat, lines: seq<Line>)

  /** What the lines of a hunk add up to: the lines expected on the left, those left on the
      right, and the counters of the header. */
  datatype Tally = Tally(left: seq<string>, right: seq<string>, adds: nat, removes: nat, common: nat) {
    function Plus(line: Line): Tally {
      if line.mark == '+' then this.(right := right + [line.text], adds := adds + 1)
      else if line.mark == '-' then this.(left := left + [line.text], removes := removes + 1)
      else Tally(left + [line.text], right + [line.text], adds, removes, common + 1)
    }
  }

  function TallyOf(lines: seq<Line>): Tally {
    if lines == [] then Tally([], [], 0, 0, 0) else TallyOf(lines[..|lines| - 1]).Plus(lines[|lines| - 1])
  }

  function OldSide(lines: seq<Line>): seq<string> {
    TallyOf(lines).left
  }

  function NewSide(lines: seq<Line>): seq<string> {
    TallyOf(lines).right
  }

  predicate Marked(lines: seq<Line>, mark: char) {
    forall i :: 0 <= i < |lines| ==> lines[i].mark == mark
  }

  lemma Regroup(a: seq<Line>, b: seq<Line>, c: seq<Line>)
    ensures a + (b + c) == a + b + c
  {
  }

  lemma NothingPending(lines: seq<Line>)
    ensures lines + [] + [] == lines
  {
  }

  lemma TallyPush(lines: seq<Line>, l: Line)
    ensures TallyOf(lines + [l]) == TallyOf(lines).Plus(l)
  {
    assert (lines + [l])[..|lines|] == lines;
  }

  /** A removed line may be moved in front of added ones: nothing it adds up to changes. */
  lemma {:induction false} RemovesGoFirst(lines: seq<Line>, l: Line, adds: seq<Line>)
    requires l.mark == '-' && Marked(adds, '+')
    ensures TallyOf(lines + [l] + adds) == TallyOf(lines + adds).Plus(l)
    decreases |adds|
  {
    if adds == [] {
      assert lines + [l] + adds == lines + [l] && lines + adds == lines;
      TallyPush(lines, l);
    } else {
      var before, last := adds[..|adds| - 1], adds[|adds| - 1];
      RemovesGoFirst(lines, l, before);
      assert lines + [l] + adds == (lines + [l] + before) + [last] && lines + adds == (lines + before) + [last];
      TallyPush(lines + [l] + before, last);
      TallyPush(lines + before, last);
    }
  }

  /** The counters of the header are the sizes of the two sides. */
  lemma {:induction false} SideSizes(lines: seq<Line>)
    ensures var t := TallyOf(lines); |t.left| == t.removes + t.common && |t.right| == t.adds + t.common
  {
    if lines != [] {
      SideSizes(lines[..|lines| - 1]);
    }
  }

  // ----- text

  function Range(start: nat, count: nat): string {
    DecimalFormat.Decimal(start) + "," + DecimalFormat.Decimal(count)
  }

  /** The header names a side only if the hunk changes it. */
  function Header(h: HunkText): string {
    "@@ " +
    (if h.removes > 0 then "-" + Range(h.leftStart, h.removes + h.common) else "") +
    (if h.removes > 0 && h.adds > 0 then " " else "") +
    (if h.adds > 0 then "+" + Range(h.rightStart, h.adds + h.common) else "") +
    " @@\n"
  }

  function Body(lines: seq<Line>): string {
    if lines == [] then "" else
      Body(lines[..|lines| - 1]) + [lines[|lines| - 1].mark] + lines[|lines| - 1].text + "\n"
  }

  function Render(h: HunkText): string {
    Header(h) + Body(h.lines)
  }

  function RenderAll(hunks: seq<HunkText>): string {
    if hunks == [] then "" else RenderAll(hunks[..|hunks| - 1]) + Render(hunks[|hunks| - 1])
  }

  // ----- how hunks are laid out

  /** The common lines in front of the first change, whether there is one, the common lines since the last one,
      and the most between two of them. */
  datatype Layout = Layout(lead: nat, changed: bool, run: nat, widest: nat) {
    function Plus(line: Line): Layout {
      if line.mark != '-' && line.mark != '+' then this.(lead := if changed then lead else lead + 1, run := run + 1)
      else Layout(lead, true, 0, if changed && run > widest then run else widest)
    }
  }

  function LayoutOf(lines: seq<Line>): Layout {
    if lines == [] then Layout(0, false, 0, 0) else LayoutOf(lines[..|lines| - 1]).Plus(lines[|lines| - 1])
  }

  lemma LayoutPush(lines: seq<Line>, l: Line)
    ensures LayoutOf(lines + [l]) == LayoutOf(lines).Plus(l)
  {
    assert (lines + [l])[..|lines|] == lines;
  }

  /** Neither is it changed by moving removed lines in front of added ones. */
  lemma {:induction false} RemovesGoFirstInLayout(lines: seq<Line>, l: Line, adds: seq<Line>)
    requires l.mark == '-' && Marked(adds, '+')
    ensures LayoutOf(lines + [l] + adds) == LayoutOf(lines + adds).Plus(l)
    decreases |adds|
  {
    if adds == [] {
      assert lines + [l] + adds == lines + [l] && lines + adds == lines;
      LayoutPush(lines, l);
    } else {
      var before, last := adds[..|adds| - 1], adds[|adds| - 1];
      RemovesGoFirstInLayout(lines, l, before);
      assert lines + [l] + adds == (lines + [l] + before) + [last] && lines + adds == (lines + before) + [last];
      LayoutPush(lines + [l] + before, last);
      LayoutPush(lines + before, last);
    }
  }

  /** No removed line directly behind an added one. */
  predicate Grouped(lines: seq<Line>) {
    forall i :: 0 < i < |lines| && lines[i].mark == '-' ==> lines[i - 1].mark != '+'
  }

  predicate EndsCommon(lines: seq<Line>) {
    lines != [] ==> lines[|lines| - 1].mark == ' '
  }

  lemma GroupedParts(lines: seq<Line>, removes: seq<Line>, adds: seq<Line>)
    requires Grouped(lines) && EndsCommon(lines) && Marked(removes, '-') && Marked(adds, '+')
    ensures Grouped(lines + removes + adds)
  {
    var all := lines + removes + adds;
    forall i | 0 <= i < |all|
      ensures all[i] == if i < |lines| then lines[i] else if i < |lines| + |removes| then removes[i - |lines|]
                        else adds[i - |lines| - |removes|]
    {
    }
  }

  predicate IsMarked(lines: seq<Line>) {
    forall i :: 0 <= i < |lines| ==> lines[i].mark in {' ', '-', '+'}
  }

  /** What the lines add up to, and how they are laid out. */
  ghost predicate AddsUpTo(lines: seq<Line>, tally: Tally, layout: Layout) {
    TallyOf(lines) == tally && LayoutOf(lines) == layout && IsMarked(lines)
  }

  lemma PushAddsUp(lines: seq<Line>, l: Line, tally: Tally, layout: Layout)
    requires AddsUpTo(lines, tally, layout) && l.mark in {' ', '-', '+'}
    ensures AddsUpTo(lines + [l], tally.Plus(l), layout.Plus(l))
  {
    hide TallyOf, LayoutOf;
    TallyPush(lines, l);
    LayoutPush(lines, l);
  }

  lemma RemoveAddsUp(lines: seq<Line>, l: Line, adds: seq<Line>, tally: Tally, layout: Layout)
    requires AddsUpTo(lines + adds, tally, layout) && l.mark == '-' && Marked(adds, '+')
    ensures AddsUpTo(lines + [l] + adds, tally.Plus(l), layout.Plus(l))
  {
    hide TallyOf, LayoutOf;
    RemovesGoFirst(lines, l, adds);
    RemovesGoFirstInLayout(lines, l, adds);
    var all := lines + adds;
    assert forall i :: 0 <= i < |lines| ==> lines[i] == all[i];
  }

  // ----- lines of text

  function Find(s: string, c: char): (n: nat)
    ensures n <= |s| && (n < |s| ==> s[n] == c)
    ensures forall i :: 0 <= i < n ==> s[i] != c
  {
    if s == "" || s[0] == c then 0 else 1 + Find(s[1..], c)
  }

  /** The lines of a text, by its newlines. */
  function LinesOf(text: string): seq<string> {
    if text == "" then [] else
      var n := Find(text, '\n');
      [text[..n]] + if n < |text| then LinesOf(text[n + 1..]) else []
  }

  predicate IsOneLine(s: string) {
    '\n' !in s
  }

  lemma FindAt(s: string, c: char, n: nat)
    requires n < |s| && s[n] == c && forall i :: 0 <= i < n ==> s[i] != c
    ensures Find(s, c) == n
  {
  }

  lemma FindNone(s: string, c: char)
    requires c !in s
    ensures Find(s, c) == |s|
  {
  }

  lemma FirstLine(line: string, rest: string)
    requires IsOneLine(line)
    ensures LinesOf(line + "\n" + rest) == [line] + LinesOf(rest)
  {
    var text := line + "\n" + rest;
    FindAt(text, '\n', |line|);
    assert text[..|line|] == line && text[|line| + 1..] == rest;
  }

  predicate EndsLine(text: string) {
    text == "" || text[|text| - 1] == '\n'
  }

  lemma {:induction false} LinesConcat(a: string, b: string)
    requires EndsLine(a)
    ensures LinesOf(a + b) == LinesOf(a) + LinesOf(b)
    decreases |a|
  {
    NoLines();
    hide LinesOf;
    if a == "" {
      assert a + b == b;
    } else {
      var line, rest := SplitLine(a);
      LinesConcat(rest, b);
      FirstLineConcat(line, rest, b);
    }
  }

  lemma NoLines()
    ensures LinesOf("") == []
  {
  }

  lemma SplitLine(a: string) returns (line: string, rest: string)
    requires EndsLine(a) && a != ""
    ensures IsOneLine(line) && EndsLine(rest) && |rest| < |a| && a == line + "\n" + rest
  {
    var n := Find(a, '\n');
    line, rest := a[..n], a[n + 1..];
  }

  lemma FirstLineConcat(line: string, rest: string, b: string)
    requires IsOneLine(line) && LinesOf(rest + b) == LinesOf(rest) + LinesOf(b)
    ensures LinesOf(line + "\n" + rest + b) == LinesOf(line + "\n" + rest) + LinesOf(b)
  {
    hide LinesOf;
    FirstLine(line, rest);
    FirstLine(line, rest + b);
    assert line + "\n" + rest + b == line + "\n" + (rest + b);
  }

  lemma OneMoreLine(text: string, line: string)
    requires EndsLine(text) && IsOneLine(line)
    ensures LinesOf(text + (line + "\n")) == LinesOf(text) + [line] && EndsLine(text + (line + "\n"))
  {
    LinesConcat(text, line + "\n");
    FirstLine(line, "");
    assert line + "\n" + "" == line + "\n";
  }

  // ----- the reader

  /** A side that a header names. */
  datatype Side = Side(start: nat, length: nat)

  /** A hunk as its text tells it. */
  datatype ReadHunk = ReadHunk(left: Option<Side>, right: Option<Side>, lines: seq<Line>)

  predicate IsNumber(s: string) {
    s != "" && forall i :: 0 <= i < |s| ==> '0' <= s[i] <= '9'
  }

  function ReadNumber(s: string): (n: nat)
    requires IsNumber(s)
  {
    (if |s| == 1 then 0 else ReadNumber(s[..|s| - 1]) * 10) + (s[|s| - 1] as int - '0' as int)
  }

  /** A sign, a number, a comma, a number. */
  function ReadSide(s: string, sign: char): Option<Side> {
    var comma := Find(s, ',');
    if s != "" && s[0] == sign && 1 <= comma < |s| && IsNumber(s[1..comma]) && IsNumber(s[comma + 1..])
    then Some(Side(ReadNumber(s[1..comma]), ReadNumber(s[comma + 1..]))) else None
  }

  /** Two sides with a space between them, or one. */
  function ReadSides(s: string): Option<ReadHunk> {
    var space := Find(s, ' ');
    if space < |s| then
      var left, right := ReadSide(s[..space], '-'), ReadSide(s[space + 1..], '+');
      if left.Some? && right.Some? then Some(ReadHunk(left, right, [])) else None
    else
      var left, right := ReadSide(s, '-'), ReadSide(s, '+');
      if left.Some? || right.Some? then Some(ReadHunk(left, right, [])) else None
  }

  function ReadHeader(line: string): Option<ReadHunk> {
    if |line| >= 6 && line[..3] == "@@ " && line[|line| - 3..] == " @@"
    then ReadSides(line[3..|line| - 3]) else None
  }

  /** One more line: a header, or a marked line of the last hunk. */
  function ReadLine(hunks: seq<ReadHunk>, line: string): Option<seq<ReadHunk>> {
    if line == "" then None
    else if line[0] == '@' then
      var header := ReadHeader(line);
      if header.Some? then Some(hunks + [header.value]) else None
    else if hunks != [] && line[0] in {' ', '-', '+'} then
      var last := hunks[|hunks| - 1];
      Some(hunks[..|hunks| - 1] + [last.(lines := last.lines + [Line(line[0], line[1..])])])
    else None
  }

  function ReadLines(lines: seq<string>): Option<seq<ReadHunk>> {
    if lines == [] then Some([]) else
      var before := ReadLines(lines[..|lines| - 1]);
      if before.Some? then ReadLine(before.value, lines[|lines| - 1]) else None
  }

  function ReadDiff(text: string): Option<seq<ReadHunk>> {
    ReadLines(LinesOf(text))
  }

  // ----- what is printed reads back

  lemma ReadOneMore(lines: seq<string>, line: string)
    ensures ReadLines(lines + [line]) ==
            (if ReadLines(lines).Some? then ReadLine(ReadLines(lines).value, line) else None)
  {
    assert (lines + [line])[..|lines|] == lines;
  }

  lemma {:induction false} DecimalIsNumber(n: nat)
    ensures IsNumber(DecimalFormat.Decimal(n)) && ReadNumber(DecimalFormat.Decimal(n)) == n
  {
    var s := DecimalFormat.Decimal(n);
    if n >= 10 {
      DecimalIsNumber(n / 10);
      assert s[..|s| - 1] == DecimalFormat.Decimal(n / 10);
    }
  }

  lemma RangeReads(sign: char, other: char, start: nat, count: nat)
    requires sign != other && sign != ' ' && sign != '\n' && sign != ','
    ensures var s := [sign] + Range(start, count);
            && ReadSide(s, sign) == Some(Side(start, count)) && ReadSide(s, other) == None
            && ' ' !in s && IsOneLine(s) && |s| > 0
  {
    var a, b := DecimalFormat.Decimal(start), DecimalFormat.Decimal(count);
    DecimalIsNumber(start);
    DecimalIsNumber(count);
    hide DecimalFormat.Decimal, ReadNumber;
    SideReads(sign, other, a, b);
    assert [sign] + Range(start, count) == [sign] + a + "," + b;
  }

  lemma DigitsOnly(s: string)
    requires IsNumber(s)
    ensures |s| > 0 && ',' !in s && ' ' !in s && '\n' !in s
  {
  }

  lemma SideReads(sign: char, other: char, a: string, b: string)
    requires sign != other && sign != ' ' && sign != '\n' && sign != ',' && IsNumber(a) && IsNumber(b)
    ensures var s := [sign] + a + "," + b;
            && ReadSide(s, sign) == Some(Side(ReadNumber(a), ReadNumber(b))) && ReadSide(s, other) == None
            && ' ' !in s && IsOneLine(s) && |s| > 0
  {
    hide ReadNumber, Find, IsNumber;
    DigitsOnly(a);
    DigitsOnly(b);
    var s := [sign] + a + "," + b;
    FindAt(s, ',', 1 + |a|);
    assert s[1..1 + |a|] == a && s[1 + |a| + 1..] == b;
  }

  /** The line of the header, without its newline. */
  function Sides(h: HunkText): string {
    (if h.removes > 0 then "-" + Range(h.leftStart, h.removes + h.common) else "") +
    (if h.removes > 0 && h.adds > 0 then " " else "") +
    (if h.adds > 0 then "+" + Range(h.rightStart, h.adds + h.common) else "")
  }

  /** What the text of a hunk is to tell: a side is named exactly if the hunk changes it, by where it starts and
      by how many lines the hunk has of it; and the lines. */
  ghost predicate Tells(r: ReadHunk, h: HunkText) {
    && r.lines == h.lines
    && r.left == (if Marks(h.lines, '-') then Some(Side(h.leftStart, |OldSide(h.lines)|)) else None)
    && r.right == (if Marks(h.lines, '+') then Some(Side(h.rightStart, |NewSide(h.lines)|)) else None)
  }

  ghost predicate Marks(lines: seq<Line>, mark: char) {
    exists i :: 0 <= i < |lines| && lines[i].mark == mark
  }

  lemma {:induction false} MarksCounted(lines: seq<Line>)
    ensures Marks(lines, '-') <==> TallyOf(lines).removes > 0
    ensures Marks(lines, '+') <==> TallyOf(lines).adds > 0
  {
    if lines != [] {
      var init, last := lines[..|lines| - 1], lines[|lines| - 1];
      MarksCounted(init);
      assert lines == init + [last];
      MarksOneMore(init, last, '-');
      MarksOneMore(init, last, '+');
    }
  }

  lemma MarksOneMore(lines: seq<Line>, l: Line, mark: char)
    ensures Marks(lines + [l], mark) <==> Marks(lines, mark) || l.mark == mark
  {
    var more := lines + [l];
    if i :| 0 <= i < |lines| && lines[i].mark == mark {
      assert more[i].mark == mark;
    }
    assert more[|lines|] == l;
  }

  /** The hunk changes something, its counters are those of its lines, and these are lines. */
  ghost predicate Printable(h: HunkText) {
    && h.adds + h.removes > 0
    && TallyOf(h.lines) == Tally(OldSide(h.lines), NewSide(h.lines), h.adds, h.removes, h.common)
    && IsMarked(h.lines) && forall i :: 0 <= i < |h.lines| ==> IsOneLine(h.lines[i].text)
  }

  lemma TwoSidesRead(left: string, right: string)
    requires ' ' !in left && ReadSide(left, '-').Some? && ReadSide(right, '+').Some?
    ensures ReadSides(left + " " + right) == Some(ReadHunk(ReadSide(left, '-'), ReadSide(right, '+'), []))
  {
    hide ReadSide, Find;
    var s := left + " " + right;
    FindAt(s, ' ', |left|);
    assert s[..|left|] == left && s[|left| + 1..] == right;
  }

  lemma OneSideReads(s: string)
    requires ' ' !in s && (ReadSide(s, '-').Some? || ReadSide(s, '+').Some?)
    ensures ReadSides(s) == Some(ReadHunk(ReadSide(s, '-'), ReadSide(s, '+'), []))
  {
    hide ReadSide, Find;
    FindNone(s, ' ');
  }

  lemma SidesRead(h: HunkText)
    requires h.adds + h.removes > 0
    ensures IsOneLine(Sides(h))
    ensures ReadSides(Sides(h)) ==
            Some(ReadHunk(if h.removes > 0 then Some(Side(h.leftStart, h.removes + h.common)) else None,
                          if h.adds > 0 then Some(Side(h.rightStart, h.adds + h.common)) else None, []))
  {
    hide ReadSide, ReadSides, Range, Find;
    var left := ['-'] + Range(h.leftStart, h.removes + h.common);
    var right := ['+'] + Range(h.rightStart, h.adds + h.common);
    RangeReads('-', '+', h.leftStart, h.removes + h.common);
    RangeReads('+', '-', h.rightStart, h.adds + h.common);
    if h.removes > 0 && h.adds > 0 {
      TwoSidesRead(left, right);
    } else if h.removes > 0 {
      OneSideReads(left);
      assert Sides(h) == left;
    } else {
      OneSideReads(right);
      assert Sides(h) == right;
    }
  }

  function HeaderLine(h: HunkText): string {
    "@@ " + Sides(h) + " @@"
  }

  lemma SidesInHeader(sides: string)
    requires IsOneLine(sides)
    ensures var line := "@@ " + sides + " @@";
            IsOneLine(line) && line != "" && line[0] == '@' && ReadHeader(line) == ReadSides(sides)
  {
    hide ReadSides;
    var line := "@@ " + sides + " @@";
    assert line[..3] == "@@ " && line[|line| - 3..] == " @@" && line[3..|line| - 3] == sides;
  }

  lemma HeaderIsLine(h: HunkText)
    ensures Header(h) == HeaderLine(h) + "\n"
  {
    hide Range;
    EndOfHeader("@@ ", if h.removes > 0 then "-" + Range(h.leftStart, h.removes + h.common) else "",
                if h.removes > 0 && h.adds > 0 then " " else "",
                if h.adds > 0 then "+" + Range(h.rightStart, h.adds + h.common) else "");
  }

  lemma EndOfHeader(start: string, a: string, b: string, c: string)
    ensures start + a + b + c + " @@\n" == start + (a + b + c) + " @@" + "\n"
  {
    assert " @@" + "\n" == " @@\n";
  }

  lemma HeaderReads(h: HunkText)
    requires h.adds + h.removes > 0
    ensures Header(h) == HeaderLine(h) + "\n" && IsOneLine(HeaderLine(h)) && HeaderLine(h) != ""
    ensures HeaderLine(h)[0] == '@' && ReadHeader(HeaderLine(h)) == ReadSides(Sides(h))
  {
    hide Header, Sides, ReadSides, ReadHeader;
    SidesRead(h);
    HeaderIsLine(h);
    SidesInHeader(Sides(h));
  }

  lemma LineIsAdded(hunks: seq<ReadHunk>, r: ReadHunk, l: Line)
    requires l.mark in {' ', '-', '+'}
    ensures ReadLine(hunks + [r], [l.mark] + l.text) == Some(hunks + [r.(lines := r.lines + [l])])
  {
    hide ReadHeader;
    var read, line := hunks + [r], [l.mark] + l.text;
    assert read[..|read| - 1] == hunks && line[1..] == l.text && Line(line[0], line[1..]) == l;
  }

  lemma HeaderIsAdded(hunks: seq<ReadHunk>, line: string)
    requires line != "" && line[0] == '@' && ReadHeader(line).Some?
    ensures ReadLine(hunks, line) == Some(hunks + [ReadHeader(line).value])
  {
    hide ReadHeader;
  }

  lemma LineReads(text: string, hunks: seq<ReadHunk>, line: string)
    requires EndsLine(text) && IsOneLine(line) && ReadDiff(text) == Some(hunks)
    ensures EndsLine(text + (line + "\n")) && ReadDiff(text + (line + "\n")) == ReadLine(hunks, line)
  {
    hide LinesOf, ReadLines, ReadLine;
    OneMoreLine(text, line);
    ReadOneMore(LinesOf(text), line);
  }

  /** The lines below a header are read into its hunk. */
  lemma {:induction false} BodyReads(before: string, hunks: seq<ReadHunk>, r: ReadHunk, lines: seq<Line>)
    requires EndsLine(before) && ReadDiff(before) == Some(hunks + [r]) && r.lines == []
    requires IsMarked(lines) && forall i :: 0 <= i < |lines| ==> IsOneLine(lines[i].text)
    ensures EndsLine(before + Body(lines))
    ensures ReadDiff(before + Body(lines)) == Some(hunks + [r.(lines := lines)])
    decreases |lines|
  {
    BodySplits(lines);
    hide ReadDiff, Body, EndsLine, ReadLine;
    if lines == [] {
      assert before + Body(lines) == before && r.(lines := lines) == r;
    } else {
      var init, last := lines[..|lines| - 1], lines[|lines| - 1];
      BodyReads(before, hunks, r, init);
      assert IsOneLine([last.mark] + last.text);
      LineReads(before + Body(init), hunks + [r.(lines := init)], [last.mark] + last.text);
      LineIsAdded(hunks, r.(lines := init), last);
      LineAtEnd(before, Body(init), [last.mark], last.text);
      assert init + [last] == lines;
    }
  }

  lemma BodySplits(lines: seq<Line>)
    ensures lines == [] ==> Body(lines) == ""
    ensures lines != [] ==>
              var last := lines[|lines| - 1];
              Body(lines) == Body(lines[..|lines| - 1]) + [last.mark] + last.text + "\n"
  {
  }

  lemma LineAtEnd(before: string, body: string, mark: string, text: string)
    ensures before + (body + mark + text + "\n") == before + body + (mark + text + "\n")
  {
  }

  ghost predicate AllTell(read: seq<ReadHunk>, hunks: seq<HunkText>) {
    |read| == |hunks| && forall i :: 0 <= i < |hunks| ==> Tells(read[i], hunks[i])
  }

  /** Reading the text of hunks gives back, for each of them, the sides it changes, with their starts and their
      lengths, and its lines. */
  lemma {:induction false} DiffReadsBack(hunks: seq<HunkText>)
    requires forall i :: 0 <= i < |hunks| ==> Printable(hunks[i])
    ensures EndsLine(RenderAll(hunks))
    ensures ReadDiff(RenderAll(hunks)).Some? && AllTell(ReadDiff(RenderAll(hunks)).value, hunks)
    decreases |hunks|
  {
    RenderSplits(hunks);
    hide RenderAll, Render, ReadDiff, EndsLine, Printable, Tells;
    if hunks != [] {
      var init, h := hunks[..|hunks| - 1], hunks[|hunks| - 1];
      DiffReadsBack(init);
      HunkReadsBack(RenderAll(init), ReadDiff(RenderAll(init)).value, h);
    }
  }

  lemma RenderSplits(hunks: seq<HunkText>)
    ensures hunks == [] ==> RenderAll(hunks) == "" && EndsLine("") && ReadDiff("") == Some([])
    ensures hunks != [] ==> RenderAll(hunks) == RenderAll(hunks[..|hunks| - 1]) + Render(hunks[|hunks| - 1])
  {
  }

  lemma HunkReadsBack(before: string, read: seq<ReadHunk>, h: HunkText)
    requires EndsLine(before) && ReadDiff(before) == Some(read) && Printable(h)
    ensures EndsLine(before + Render(h)) && ReadDiff(before + Render(h)).Some?
    ensures var after := ReadDiff(before + Render(h)).value;
            |after| == |read| + 1 && after[..|read|] == read && Tells(after[|read|], h)
  {
    hide ReadDiff, Sides, ReadSides, Header, HeaderLine, Body, ReadHeader, EndsLine, ReadLine, TallyOf, Marks;
    SidesRead(h);
    HeaderReads(h);
    var line, r := HeaderLine(h), ReadSides(Sides(h)).value;
    LineReads(before, read, line);
    HeaderIsAdded(read, line);
    BodyReads(before + (line + "\n"), read, r, h.lines);
    assert before + Render(h) == before + (line + "\n") + Body(h.lines);
    HeaderTells(h, r);
  }

  lemma HeaderTells(h: HunkText, r: ReadHunk)
    requires Printable(h) && ReadSides(Sides(h)) == Some(r)
    ensures Tells(r.(lines := h.lines), h)
  {
    hide Sides, ReadSides, IsMarked;
    SidesRead(h);
    SideSizes(h.lines);
    MarksCounted(h.lines);
    hide TallyOf, Marks;
  }

  // ----- patching with a text

  /** So many lines of the left side have been used, and these have been put out. */
  datatype Progress = Progress(taken: nat, out: seq<string>)

  /** Where a hunk starts on the left: as its header says, or, if that names the right side only, as far behind
      what is done as it says of the right side. */
  function StartOf(p: Progress, h: ReadHunk): int {
    if h.left.Some? then h.left.value.start - 1
    else if h.right.Some? then p.taken + (h.right.value.start - 1 - |p.out|) else -1
  }

  /** Copies what is in front of the hunk, checks the lines it expects and its header, and puts its new side. */
  function ApplyHunk(p: Progress, h: ReadHunk, left: seq<string>): Option<Progress> {
    var start, olds, news := StartOf(p, h), OldSide(h.lines), NewSide(h.lines);
    if p.taken <= start && start + |olds| <= |left| && left[start..start + |olds|] == olds
       && (h.left.Some? ==> h.left.value.length == |olds|)
       && (h.right.Some? ==> h.right.value == Side(|p.out| + (start - p.taken) + 1, |news|))
    then Some(Progress(start + |olds|, p.out + left[p.taken..start] + news)) else None
  }

  function ApplyHunks(hunks: seq<ReadHunk>, left: seq<string>): Option<Progress> {
    if hunks == [] then Some(Progress(0, [])) else
      var before := ApplyHunks(hunks[..|hunks| - 1], left);
      if before.Some? then ApplyHunk(before.value, hunks[|hunks| - 1], left) else None
  }

  /** The left side patched by the text of a diff, if it is one and applies. */
  function PatchedBy(text: string, left: seq<string>): Option<seq<string>> {
    var hunks := ReadDiff(text);
    if hunks.None? then None else
      var done := ApplyHunks(hunks.value, left);
      if done.Some? && done.value.taken <= |left| then Some(done.value.out + left[done.value.taken..]) else None
  }
}
