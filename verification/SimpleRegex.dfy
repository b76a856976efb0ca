/** gtest's simple regular expressions: which strings are valid ones, and the backtracking
    matcher against the languages the expressions denote. */
module SimpleRegex {

  import opened Options

  /** C strings: a null pointer, or characters followed by a terminator. */
  datatype CString = Null | Text(s: string)

  predicate IsCString(s: string) {
    '\0' !in s
  }

  lemma SuffixIsCString(s: string, i: nat)
    requires IsCString(s) && i <= |s|
    ensures IsCString(s[i..])
    ensures i < |s| ==> s[i] != '\0'
  {
  }

  /** The character at index i, or the terminator. */
  function At(s: string, i: nat): char {
    if i < |s| then s[i] else '\0'
  }

  // ----- characters

  predicate IsInSet(ch: char, chars: string) {
    ch != '\0' && ch in chars
  }

  predicate IsAsciiDigit(ch: char) {
    '0' <= ch <= '9'
  }

  predicate IsAsciiPunct(ch: char) {
    IsInSet(ch, "^-!\"#$%&'()*+,./:;<=>?@[\\]_`{|}~")
  }

  predicate IsRepeat(ch: char) {
    IsInSet(ch, "?*+")
  }

  predicate IsAsciiWhiteSpace(ch: char) {
    IsInSet(ch, " \U{0C}\n\r\t\U{0B}")
  }

  predicate IsAsciiWordChar(ch: char) {
    'a' <= ch <= 'z' || 'A' <= ch <= 'Z' || '0' <= ch <= '9' || ch == '_'
  }

  predicate IsValidEscape(c: char) {
    IsAsciiPunct(c) || IsInSet(c, "dDfnrsStvwW")
  }

  predicate AtomMatchesChar(escaped: bool, patternChar: char, ch: char) {
    if escaped then
      match patternChar
      case 'd' => IsAsciiDigit(ch)
      case 'D' => !IsAsciiDigit(ch)
      case 'f' => ch == '\U{0C}'
      case 'n' => ch == '\n'
      case 'r' => ch == '\r'
      case 's' => IsAsciiWhiteSpace(ch)
      case 'S' => !IsAsciiWhiteSpace(ch)
      case 't' => ch == '\t'
      case 'v' => ch == '\U{0B}'
      case 'w' => IsAsciiWordChar(ch)
      case 'W' => !IsAsciiWordChar(ch)
      case _ => IsAsciiPunct(patternChar) && patternChar == ch
    else (patternChar == '.' && ch != '\n') || patternChar == ch
  }

  /** The classes by their members: digits, the characters of identifiers, the six blanks of C, and control
      characters by their codes; the capital letters stand for the complements. */
  lemma ClassesHold(ch: char)
    ensures AtomMatchesChar(true, 'd', ch) <==> ch in "0123456789"
    ensures AtomMatchesChar(true, 'w', ch) <==>
            ch in "ABCDEFGHIJKLMNOPQRSTUVWXYZ" || ch in "abcdefghijklmnopqrstuvwxyz" || ch in "0123456789" || ch == '_'
    ensures AtomMatchesChar(true, 's', ch) <==> 9 <= ch as int <= 13 || ch as int == 32
    ensures AtomMatchesChar(true, 'D', ch) <==> !AtomMatchesChar(true, 'd', ch)
    ensures AtomMatchesChar(true, 'W', ch) <==> !AtomMatchesChar(true, 'w', ch)
    ensures AtomMatchesChar(true, 'S', ch) <==> !AtomMatchesChar(true, 's', ch)
    ensures AtomMatchesChar(true, 't', ch) <==> ch as int == 9
    ensures AtomMatchesChar(true, 'n', ch) <==> ch as int == 10
    ensures AtomMatchesChar(true, 'v', ch) <==> ch as int == 11
    ensures AtomMatchesChar(true, 'f', ch) <==> ch as int == 12
    ensures AtomMatchesChar(true, 'r', ch) <==> ch as int == 13
    ensures AtomMatchesChar(false, '.', ch) <==> ch as int != 10
  {
    DigitsAre(ch);
    CapitalsAre(ch);
    SmallLettersAre(ch);
  }

  lemma DigitsAre(ch: char)
    ensures ch in "0123456789" <==> '0' <= ch <= '9'
  {
    var all := "0123456789";
    if '0' <= ch <= '9' {
      assert all[ch as int - '0' as int] == ch;
    }
  }

  lemma CapitalsAre(ch: char)
    ensures ch in "ABCDEFGHIJKLMNOPQRSTUVWXYZ" <==> 'A' <= ch <= 'Z'
  {
    var all := "ABCDEFGHIJKLMNOPQRSTUVWXYZ";
    if 'A' <= ch <= 'Z' {
      assert all[ch as int - 'A' as int] == ch;
    }
  }

  lemma SmallLettersAre(ch: char)
    ensures ch in "abcdefghijklmnopqrstuvwxyz" <==> 'a' <= ch <= 'z'
  {
    var all := "abcdefghijklmnopqrstuvwxyz";
    if 'a' <= ch <= 'z' {
      assert all[ch as int - 'a' as int] == ch;
    }
  }

  /** Punctuation is all of printable ASCII but blanks, letters and digits; escaped it stands for itself, and so
      does every other character that is not escaped. */
  lemma OthersStandForThemselves(c: char, ch: char)
    ensures IsAsciiPunct(c) <==> 33 <= c as int <= 126 && (c == '_' || !AtomMatchesChar(true, 'w', c))
    ensures IsAsciiPunct(c) ==> (AtomMatchesChar(true, c, ch) <==> ch == c)
    ensures c != '.' ==> (AtomMatchesChar(false, c, ch) <==> ch == c)
  {
    PunctuationIs(c);
  }

  predicate IsBetweenAlphanumerics(c: char) {
    33 <= c as int <= 47 || 58 <= c as int <= 64 || 91 <= c as int <= 96 || 123 <= c as int <= 126
  }

  const Punctuation: string := "^-!\"#$%&'()*+,./:;<=>?@[\\]_`{|}~"

  lemma PunctuationIs(c: char)
    ensures IsAsciiPunct(c) <==> IsBetweenAlphanumerics(c)
  {
    if IsBetweenAlphanumerics(c) {
      PunctuationIn(c);
    }
  }

  lemma PunctuationIn(c: char)
    requires IsBetweenAlphanumerics(c)
    ensures c in Punctuation
  {
    assert Punctuation[PunctuationAt(c)] == c;
  }

  function PunctuationAt(c: char): nat {
    var n := c as int;
    if n == 94 then 0 else if n == 45 then 1
    else if 33 <= n <= 44 then n - 31
    else if 46 <= n <= 47 then n - 32
    else if 58 <= n <= 64 then n - 42
    else if 91 <= n <= 93 then n - 68
    else if 95 <= n <= 96 then n - 69
    else if 123 <= n <= 126 then n - 95
    else 0
  }

  // ----- the expressions and what they denote

  datatype Count = One | AtMostOne | Many | AtLeastOne

  /** An atom, plain or escaped, and how often it may occur. */
  datatype Item = Item(escaped: bool, c: char, count: Count)

  /** A sequence of items; at its end the string may have to end too. */
  datatype Tail = Tail(items: seq<Item>, toEnd: bool)

  /** An expression may be anchored to the start of the string. */
  datatype Regex = Regex(anchored: bool, tail: Tail)

  predicate Allows(count: Count, n: nat) {
    match count
    case One => n == 1
    case AtMostOne => n <= 1
    case Many => true
    case AtLeastOne => n >= 1
  }

  ghost predicate ItemDenotes(item: Item, w: string) {
    Allows(item.count, |w|) && forall i :: 0 <= i < |w| ==> AtomMatchesChar(item.escaped, item.c, w[i])
  }

  /** A character may be escaped exactly if it then matches something. */
  lemma EscapesMatchSomething(c: char)
    ensures IsValidEscape(c) <==> exists ch :: AtomMatchesChar(true, c, ch)
  {
    if IsValidEscape(c) {
      SomethingMatches(c);
    }
    hide IsAsciiPunct;
  }

  lemma SomethingMatches(c: char)
    requires IsValidEscape(c)
    ensures AtomMatchesChar(true, c, MatchOf(c))
  {
    if IsAsciiPunct(c) {
      OthersStandForThemselves(c, c);
      hide AtomMatchesChar;
    } else {
      hide IsAsciiPunct;
    }
  }

  /** A character that the escape matches, if it is a valid one. */
  function MatchOf(c: char): char {
    match c
    case 'd' => '0'
    case 'w' => '0'
    case 'S' => '0'
    case 'D' => ' '
    case 'W' => ' '
    case 's' => ' '
    case 'f' => '\U{0C}'
    case 'n' => '\n'
    case 'r' => '\r'
    case 't' => '\t'
    case 'v' => '\U{0B}'
    case _ => c
  }

  /** Characters that need no escape: all but the terminator and, by their codes, $ ( ) * + ? [ \ ] ^ { | }. */
  lemma PlainIff(c: char)
    ensures IsPlain(c) <==> c as int !in {0, 36, 40, 41, 42, 43, 63, 91, 92, 93, 94, 123, 124, 125}
  {
  }

  /** What the repetitions denote: an atom or nothing; an atom and then any number of them; nothing, or that. */
  lemma RepetitionsDenote(escaped: bool, c: char, w: string)
    ensures ItemDenotes(Item(escaped, c, One), w) <==> |w| == 1 && AtomMatchesChar(escaped, c, w[0])
    ensures ItemDenotes(Item(escaped, c, AtMostOne), w) <==> w == "" || ItemDenotes(Item(escaped, c, One), w)
    ensures ItemDenotes(Item(escaped, c, AtLeastOne), w) <==>
            w != "" && ItemDenotes(Item(escaped, c, One), w[..1]) && ItemDenotes(Item(escaped, c, Many), w[1..])
    ensures ItemDenotes(Item(escaped, c, Many), w) <==> w == "" || ItemDenotes(Item(escaped, c, AtLeastOne), w)
  {
    hide AtomMatchesChar;
    if w != "" {
      assert w == w[..1] + w[1..];
      assert forall i :: 0 <= i < |w[1..]| ==> w[1..][i] == w[i + 1];
    }
  }

  /** The words of a sequence of items: concatenations of one word of each. */
  ghost predicate Denotes(items: seq<Item>, w: string) {
    if items == [] then w == ""
    else exists k :: 0 <= k <= |w| && ItemDenotes(items[0], w[..k]) && Denotes(items[1..], w[k..])
  }

  /** Some prefix of the string is a word; the whole string, if the expression asks for the end. */
  ghost predicate DenotesPrefix(tail: Tail, str: string) {
    exists k :: 0 <= k <= |str| && Denotes(tail.items, str[..k]) && (tail.toEnd ==> k == |str|)
  }

  /** Some suffix of the string starts with a word; the whole string, if the expression is anchored. */
  ghost predicate DenotesSomewhere(re: Regex, str: string) {
    exists k :: 0 <= k <= |str| && (re.anchored ==> k == 0) && DenotesPrefix(re.tail, str[k..])
  }

  // ----- their notation

  predicate IsPlain(c: char) {
    c != '\0' && !IsInSet(c, "^$()[]{}|?*+\\")
  }

  predicate IsItem(item: Item) {
    if item.escaped then IsValidEscape(item.c) else IsPlain(item.c)
  }

  function Mark(count: Count): string {
    match count
    case One => ""
    case AtMostOne => "?"
    case Many => "*"
    case AtLeastOne => "+"
  }

  function WriteItem(item: Item): string {
    (if item.escaped then ['\\', item.c] else [item.c]) + Mark(item.count)
  }

  function WriteItems(items: seq<Item>, toEnd: bool): string {
    if items == [] then (if toEnd then "$" else "") else WriteItem(items[0]) + WriteItems(items[1..], toEnd)
  }

  function Write(re: Regex): string {
    (if re.anchored then "^" else "") + WriteItems(re.tail.items, re.tail.toEnd)
  }

  predicate WellFormed(re: Regex) {
    forall i :: 0 <= i < |re.tail.items| ==> IsItem(re.tail.items[i])
  }

  // ----- reading the notation

  function CountOf(ch: char): Count {
    if ch == '?' then AtMostOne else if ch == '*' then Many else if ch == '+' then AtLeastOne else One
  }

  /** Length of the atom at the start of t, or 0 if there is none. */
  function AtomLength(t: string): (n: nat)
    ensures n <= |t|
  {
    if t == "" then 0
    else if t[0] == '\\' then (if |t| > 1 && IsValidEscape(t[1]) then 2 else 0)
    else if IsPlain(t[0]) then 1 else 0
  }

  /** The item at the start of t, given the length of its atom. */
  function ItemAt(t: string, n: nat): Item
    requires 0 < n == AtomLength(t)
  {
    Item(n == 2, t[n - 1], CountOf(At(t, n)))
  }

  function AfterItem(t: string, n: nat): (rest: string)
    requires 0 < n <= |t|
    ensures |rest| < |t|
  {
    if IsRepeat(At(t, n)) then t[n + 1..] else t[n..]
  }

  function ReadTail(t: string): Option<Tail>
    decreases |t|
  {
    if t == "" then Some(Tail([], false))
    else if t == "$" then Some(Tail([], true))
    else
      var n := AtomLength(t);
      if n == 0 then None else
        match ReadTail(AfterItem(t, n))
        case None => None
        case Some(rest) => Some(Tail([ItemAt(t, n)] + rest.items, rest.toEnd))
  }

  function Read(s: string): Option<Regex> {
    var anchored := s != "" && s[0] == '^';
    match ReadTail(if anchored then s[1..] else s)
    case None => None
    case Some(tail) => Some(Regex(anchored, tail))
  }

  lemma MarkOf(ch: char)
    ensures IsRepeat(ch) ==> ch != '\0' && ch != '\\'
    ensures Mark(CountOf(ch)) == if IsRepeat(ch) then [ch] else ""
  {
  }

  lemma ItemIsWritten(t: string, n: nat)
    requires 0 < n == AtomLength(t)
    ensures IsItem(ItemAt(t, n)) && WriteItem(ItemAt(t, n)) + AfterItem(t, n) == t
  {
    hide IsValidEscape, IsPlain, IsRepeat, CountOf, Mark;
    MarkOf(At(t, n));
    assert t == t[..n] + t[n..];
    if n == 1 {
      assert t[..n] == [t[0]];
    } else {
      assert n == 2 && t[..n] == ['\\', t[1]];
    }
    if IsRepeat(At(t, n)) {
      assert t[n..] == [t[n]] + t[n + 1..];
    }
  }

  lemma {:induction false} ReadTailWrites(t: string)
    requires ReadTail(t).Some?
    ensures var tail := ReadTail(t).value;
            WellFormed(Regex(false, tail)) && WriteItems(tail.items, tail.toEnd) == t
    decreases |t|
  {
    hide AtomLength, AfterItem, IsItem, ItemAt, WriteItem;
    if t != "" && t != "$" {
      var n := AtomLength(t);
      var rest := AfterItem(t, n);
      ReadTailWrites(rest);
      ItemIsWritten(t, n);
      var tail := ReadTail(t).value;
      assert tail.items[1..] == ReadTail(rest).value.items;
    }
  }

  lemma PlainIsNoMark(c: char)
    requires IsPlain(c)
    ensures c != '\\' && c != '$' && c != '^' && !IsRepeat(c)
  {
  }

  lemma ItemReads(item: Item, rest: string)
    requires IsItem(item)
    requires rest != "" ==> !IsRepeat(rest[0])
    ensures var t, n := WriteItem(item) + rest, if item.escaped then 2 else 1;
            AtomLength(t) == n && ItemAt(t, n) == item && AfterItem(t, n) == rest
            && !IsRepeat(t[0]) && t[0] != '^' && t[0] != '$'
  {
    hide IsValidEscape, IsPlain, IsRepeat;
    var t, n := WriteItem(item) + rest, if item.escaped then 2 else 1;
    if item.escaped {
      BackslashIsNoMark();
    } else {
      PlainIsNoMark(item.c);
    }
    assert AtomLength(t) == n;
    assert t[n..] == Mark(item.count) + rest;
    MarkOf(At(t, n));
    MarkIsRead(item.count);
    if item.count == One {
      assert rest != "" ==> At(t, n) == rest[0];
    } else {
      assert At(t, n) == Mark(item.count)[0];
      assert t[n + 1..] == rest;
    }
  }

  lemma BackslashIsNoMark()
    ensures !IsRepeat('\\')
  {
  }

  lemma MarkIsRead(count: Count)
    ensures count != One ==> IsRepeat(Mark(count)[0]) && CountOf(Mark(count)[0]) == count
    ensures forall ch :: !IsRepeat(ch) ==> CountOf(ch) == One
  {
  }

  lemma {:induction false} WriteItemsReads(items: seq<Item>, toEnd: bool)
    requires forall i :: 0 <= i < |items| ==> IsItem(items[i])
    ensures ReadTail(WriteItems(items, toEnd)) == Some(Tail(items, toEnd))
    ensures var t := WriteItems(items, toEnd); t != "" ==> !IsRepeat(t[0]) && t[0] != '^'
    decreases |items|
  {
    if items != [] {
      hide IsItem, WriteItem, AtomLength, ItemAt, AfterItem, IsRepeat;
      WriteItemsReads(items[1..], toEnd);
      ItemReads(items[0], WriteItems(items[1..], toEnd));
      assert [items[0]] + items[1..] == items;
    }
  }

  /** Reading undoes writing and writing undoes reading: a string denotes at most one expression,
      and it can be read exactly when it is the notation of one. */
  lemma ReadIffWritten(s: string)
    ensures Read(s).Some? <==> exists re :: WellFormed(re) && Write(re) == s
    ensures Read(s).Some? ==> WellFormed(Read(s).value) && Write(Read(s).value) == s
    ensures forall re :: WellFormed(re) && Write(re) == s ==> Read(s) == Some(re)
  {
    if Read(s).Some? {
      var anchored := s != "" && s[0] == '^';
      ReadTailWrites(if anchored then s[1..] else s);
      assert anchored ==> s == "^" + s[1..];
      assert Write(Read(s).value) == s;
    }
    forall re | WellFormed(re) && Write(re) == s
      ensures Read(s) == Some(re)
    {
      WriteItemsReads(re.tail.items, re.tail.toEnd);
      if re.anchored {
        assert s[0] == '^' && s[1..] == WriteItems(re.tail.items, re.tail.toEnd);
      } else {
        assert s == WriteItems(re.tail.items, re.tail.toEnd);
      }
    }
  }

  // ----- checking the notation

  /** The complaints about the character at index i, other than a bad escape: the anchors have
      their places, grouping is not supported, and a repetition mark needs something to repeat. */
  predicate PlainAccepted(s: string, i: nat, prevRepeatable: bool)
    requires i < |s|
  {
    !(s[i] == '^' && i > 0) && !(s[i] == '$' && At(s, i + 1) != '\0')
    && !IsInSet(s[i], "()[]{}|") && !(IsRepeat(s[i]) && !prevRepeatable)
  }

  predicate ValidFrom(s: string, i: nat, prevRepeatable: bool)
    requires i <= |s|
    decreases |s| - i
  {
    if i == |s| then true
    else if s[i] == '\\' then
      i + 1 < |s| && IsValidEscape(s[i + 1]) && ValidFrom(s, i + 2, true)
    else
      PlainAccepted(s, i, prevRepeatable) && ValidFrom(s, i + 1, !IsInSet(s[i], "^$?*+"))
  }

  /** What is left to read at index i: a mark there belongs to the atom before it. */
  function Unread(s: string, i: nat, prevRepeatable: bool): string
    requires i <= |s|
  {
    if i < |s| && prevRepeatable && IsRepeat(s[i]) then s[i + 1..] else s[i..]
  }

  lemma ClassOf(ch: char)
    requires ch != '\0' && ch != '\\'
    ensures IsPlain(ch) <==> !IsInSet(ch, "^$?*+") && !IsInSet(ch, "()[]{}|")
    ensures IsInSet(ch, "^$?*+") <==> ch == '^' || ch == '$' || IsRepeat(ch)
    ensures IsRepeat(ch) || IsInSet(ch, "()[]{}|") ==> ch != '^' && ch != '$'
    ensures IsRepeat(ch) ==> !IsInSet(ch, "()[]{}|")
  {
  }

  lemma EscapeStep(s: string, i: nat)
    requires IsCString(s) && i < |s| && s[i] == '\\'
    ensures ReadTail(s[i..]).Some?
            <==> i + 1 < |s| && IsValidEscape(s[i + 1]) && ReadTail(Unread(s, i + 2, true)).Some?
  {
    hide IsValidEscape, IsRepeat, IsPlain;
    MarkOf('\0');
    var t := s[i..];
    if i + 1 < |s| && IsValidEscape(s[i + 1]) {
      assert AtomLength(t) == 2;
      assert AfterItem(t, 2) == Unread(s, i + 2, true);
    }
  }

  lemma PlainStep(s: string, i: nat)
    requires IsCString(s) && i < |s| && s[i] != '\\'
    requires i == 0 ==> s[0] != '^'
    ensures ReadTail(s[i..]).Some?
            <==> PlainAccepted(s, i, false) && ReadTail(Unread(s, i + 1, !IsInSet(s[i], "^$?*+"))).Some?
  {
    hide IsInSet, IsRepeat, IsPlain;
    MarkOf('\0');
    ClassOf(s[i]);
    var t := s[i..];
    if IsPlain(s[i]) {
      assert AfterItem(t, 1) == Unread(s, i + 1, true);
    } else if s[i] == '$' {
      assert t == "$" <==> i + 1 == |s|;
    }
  }

  lemma {:induction false} ValidIffReadTail(s: string, i: nat, prevRepeatable: bool)
    requires IsCString(s) && i <= |s|
    requires i == 0 ==> s == "" || s[0] != '^'
    ensures ValidFrom(s, i, prevRepeatable) <==> ReadTail(Unread(s, i, prevRepeatable)).Some?
    decreases |s| - i
  {
    hide IsInSet, IsRepeat, IsValidEscape, ReadTail;
    if i == |s| {
      EmptyReads();
    } else if s[i] == '\\' {
      MarkOf(s[i]);
      if i + 1 < |s| {
        ValidIffReadTail(s, i + 2, true);
      }
      EscapeStep(s, i);
    } else {
      ClassOf(s[i]);
      var repeatable := !IsInSet(s[i], "^$?*+");
      ValidIffReadTail(s, i + 1, repeatable);
      if IsRepeat(s[i]) && prevRepeatable {
        assert Unread(s, i, prevRepeatable) == Unread(s, i + 1, repeatable);
        assert PlainAccepted(s, i, prevRepeatable);
      } else {
        assert Unread(s, i, prevRepeatable) == s[i..];
        assert PlainAccepted(s, i, prevRepeatable) == PlainAccepted(s, i, false);
        PlainStep(s, i);
      }
    }
  }

  lemma EmptyReads()
    ensures ReadTail("").Some?
  {
  }

  lemma ValidIffReadable(s: string)
    requires IsCString(s)
    ensures ValidFrom(s, 0, false) <==> Read(s).Some?
  {
    if s != "" && s[0] == '^' {
      ValidIffReadTail(s, 1, false);
      assert PlainAccepted(s, 0, false);
    } else {
      ValidIffReadTail(s, 0, false);
    }
  }

  lemma ValidIffNotation(s: string)
    requires IsCString(s)
    ensures ValidFrom(s, 0, false) <==> exists re :: WellFormed(re) && Write(re) == s
  {
    ReadIffWritten(s);
    ValidIffReadable(s);
  }

  /** Accepts exactly the notations of well-formed expressions. */
  method ValidateRegex(regex: CString) returns (isValid: bool)
    requires regex.Text? ==> IsCString(regex.s)
    ensures isValid <==> regex.Text? && exists re :: WellFormed(re) && Write(re) == regex.s
  {
    if regex.Null? {
      return false;
    }
    var s := regex.s;
    ValidIffNotation(s);
    hide IsValidEscape, IsRepeat, IsInSet, WellFormed, Write, IsCString;
    isValid := true;
    var prevRepeatable := false;
    var i := 0;
    while At(s, i) != '\0'
      invariant i <= |s|
      invariant ValidFrom(s, 0, false) == (isValid && ValidFrom(s, i, prevRepeatable))
      decreases |s| - i
    {
      SuffixIsCString(s, i);
      if s[i] == '\\' {
        i := i + 1;
        if At(s, i) == '\0' {
          return false;
        }
        if !IsValidEscape(s[i]) {
          isValid := false;
        }
        prevRepeatable := true;
      } else {
        var ch := s[i];
        if ch == '^' && i > 0 {
          isValid := false;
        } else if ch == '$' && At(s, i + 1) != '\0' {
          isValid := false;
        } else if IsInSet(ch, "()[]{}|") {
          isValid := false;
        } else if IsRepeat(ch) && !prevRepeatable {
          isValid := false;
        }
        prevRepeatable := !IsInSet(ch, "^$?*+");
      }
      i := i + 1;
    }
  }

  // ----- matching

  /** The string starts with j characters for the item, and with a match of the tail after them. */
  ghost predicate SplitsAt(item: Item, rest: Tail, str: string, j: nat)
    requires j <= |str|
  {
    ItemDenotes(item, str[..j]) && DenotesPrefix(rest, str[j..])
  }

  lemma SplitHead(item: Item, rest: Tail, str: string)
    ensures DenotesPrefix(Tail([item] + rest.items, rest.toEnd), str)
            <==> exists j :: 0 <= j <= |str| && SplitsAt(item, rest, str, j)
  {
    var items := [item] + rest.items;
    assert items[1..] == rest.items;
    if DenotesPrefix(Tail(items, rest.toEnd), str) {
      var k :| 0 <= k <= |str| && Denotes(items, str[..k]) && (rest.toEnd ==> k == |str|);
      var j :| 0 <= j <= k && ItemDenotes(item, str[..k][..j]) && Denotes(rest.items, str[..k][j..]);
      assert str[..k][..j] == str[..j] && str[..k][j..] == str[j..][..k - j];
      assert SplitsAt(item, rest, str, j);
    }
    if j :| 0 <= j <= |str| && SplitsAt(item, rest, str, j) {
      var m :| 0 <= m <= |str[j..]| && Denotes(rest.items, str[j..][..m]) && (rest.toEnd ==> m == |str[j..]|);
      assert str[..j + m][..j] == str[..j] && str[..j + m][j..] == str[j..][..m];
      assert Denotes(items, str[..j + m]);
    }
  }

  lemma OneCharacterSplits(item: Item, rest: Tail, str: string)
    requires item.count == One
    ensures DenotesPrefix(Tail([item] + rest.items, rest.toEnd), str)
            <==> str != "" && AtomMatchesChar(item.escaped, item.c, str[0]) && DenotesPrefix(rest, str[1..])
  {
    SplitHead(item, rest, str);
    if str != "" && AtomMatchesChar(item.escaped, item.c, str[0]) && DenotesPrefix(rest, str[1..]) {
      assert SplitsAt(item, rest, str, 1);
    }
  }

  lemma EmptyTailDenotes(toEnd: bool, str: string)
    ensures DenotesPrefix(Tail([], toEnd), str) <==> (toEnd ==> str == "")
  {
    assert Denotes([], str[..0]);
  }

  /** Addressable: an index one past the terminator is still representable. */
  predicate Addressable(str: string) {
    |str| < 0xFFFF_FFFF_FFFF_FFFF
  }

  lemma RepeatIsMark(ch: char)
    ensures IsRepeat(ch) <==> ch == '?' || ch == '*' || ch == '+'
  {
  }

  /** The item may be given the first j characters of str, or could be but for its count. */
  predicate AtomCovers(item: Item, str: string, j: nat)
    requires j <= |str|
  {
    forall x :: 0 <= x < j ==> AtomMatchesChar(item.escaped, item.c, str[x])
  }

  lemma SplitIffCovered(item: Item, rest: Tail, str: string, j: nat)
    requires j <= |str|
    ensures SplitsAt(item, rest, str, j)
            <==> Allows(item.count, j) && AtomCovers(item, str, j) && DenotesPrefix(rest, str[j..])
  {
    hide DenotesPrefix, AtomMatchesChar;
    assert forall x :: 0 <= x < j ==> str[..j][x] == str[x];
  }

  ghost predicate NoSplitBefore(item: Item, rest: Tail, str: string, i: nat)
    requires i <= |str| + 1
  {
    forall j :: 0 <= j < i ==> !SplitsAt(item, rest, str, j)
  }

  /** Without a split up to the first character that the atom does not match, there is no match. */
  lemma NoSplitAtAll(item: Item, rest: Tail, str: string, i: nat)
    requires i <= |str| && NoSplitBefore(item, rest, str, i + 1)
    requires i < |str| ==> !AtomMatchesChar(item.escaped, item.c, str[i])
    ensures !DenotesPrefix(Tail([item] + rest.items, rest.toEnd), str)
  {
    SplitHead(item, rest, str);
    forall j | i < j <= |str|
      ensures !SplitsAt(item, rest, str, j)
    {
      hide AtomMatchesChar, DenotesPrefix, SplitsAt;
      SplitIffCovered(item, rest, str, j);
    }
  }

  lemma NoSplitBeyondCount(item: Item, rest: Tail, str: string, i: nat)
    requires i <= |str| && NoSplitBefore(item, rest, str, i)
    requires forall j :: i <= j <= |str| ==> !Allows(item.count, j)
    ensures !DenotesPrefix(Tail([item] + rest.items, rest.toEnd), str)
  {
    SplitHead(item, rest, str);
    forall j | i <= j <= |str|
      ensures !SplitsAt(item, rest, str, j)
    {
      assert !Allows(item.count, j);
    }
  }

  /** What one round of the repetition loop has found out. */
  lemma SplitHere(item: Item, rest: Tail, str: string, i: nat)
    requires i <= |str| && AtomCovers(item, str, i) && NoSplitBefore(item, rest, str, i)
    ensures Allows(item.count, i) && DenotesPrefix(rest, str[i..])
            ==> DenotesPrefix(Tail([item] + rest.items, rest.toEnd), str)
    ensures !(Allows(item.count, i) && DenotesPrefix(rest, str[i..])) ==> NoSplitBefore(item, rest, str, i + 1)
  {
    hide AtomMatchesChar, DenotesPrefix, SplitsAt, AtomCovers;
    SplitIffCovered(item, rest, str, i);
    SplitHead(item, rest, str);
  }

  method MatchRepetitionAndRegexAtHead(escaped: bool, c: char, repeat: char, regex: string, str: string)
    returns (matches: bool)
    requires IsRepeat(repeat) && ReadTail(regex).Some? && IsCString(str) && Addressable(str)
    ensures var rest := ReadTail(regex).value;
            matches <==> DenotesPrefix(Tail([Item(escaped, c, CountOf(repeat))] + rest.items, rest.toEnd), str)
    decreases |regex|, 1
  {
    ghost var item, rest := Item(escaped, c, CountOf(repeat)), ReadTail(regex).value;
    hide AtomMatchesChar, DenotesPrefix, IsRepeat, ReadTail, NoSplitBefore, IsCString;
    RepeatIsMark(repeat);
    var minCount := if repeat == '+' then 1 else 0;
    var maxCount := if repeat == '?' then 1 else 0xFFFF_FFFF_FFFF_FFFE;
    assert NoSplitBefore(item, rest, str, 0) by {
      NoneBeforeStart(item, rest, str);
    }
    var i := 0;
    while i <= maxCount
      invariant i <= |str|
      invariant AtomCovers(item, str, i)
      invariant NoSplitBefore(item, rest, str, i)
      decreases maxCount - i
    {
      SplitHere(item, rest, str, i);
      SuffixIsCString(str, i);
      if i >= minCount {
        var tailMatches := MatchRegexAtHead(regex, str[i..]);
        if tailMatches {
          return true;
        }
      }
      if At(str, i) == '\0' || !AtomMatchesChar(escaped, c, str[i]) {
        NoSplitAtAll(item, rest, str, i);
        return false;
      }
      i := i + 1;
    }
    NoSplitBeyondCount(item, rest, str, i);
    return false;
  }

  lemma NoneBeforeStart(item: Item, rest: Tail, str: string)
    ensures NoSplitBefore(item, rest, str, 0)
  {
  }

  /** True exactly if some prefix of str is a word of the expression; all of str, if it ends in $. */
  method MatchRegexAtHead(regex: string, str: string) returns (matches: bool)
    requires ReadTail(regex).Some? && IsCString(str) && Addressable(str)
    ensures matches <==> DenotesPrefix(ReadTail(regex).value, str)
    decreases |regex|, 0
  {
    ghost var tail := ReadTail(regex).value;
    if At(regex, 0) == '\0' {
      EmptyTailDenotes(false, str);
      return true;
    }
    if regex[0] == '$' {
      EmptyTailDenotes(true, str);
      return At(str, 0) == '\0';
    }
    var escaped := regex[0] == '\\';
    var at := if escaped then 1 else 0;
    assert AtomLength(regex) == at + 1;
    if IsRepeat(At(regex, at + 1)) {
      matches := MatchRepetitionAndRegexAtHead(escaped, regex[at], regex[at + 1], regex[at + 2..], str);
    } else {
      OneCharacterSplits(ItemAt(regex, at + 1), ReadTail(regex[at + 1..]).value, str);
      if At(str, 0) == '\0' || !AtomMatchesChar(escaped, regex[at], str[0]) {
        return false;
      }
      matches := MatchRegexAtHead(regex[at + 1..], str[1..]);
    }
  }

  /** True exactly if the expression denotes a substring of str, at its start if it is anchored. */
  method MatchRegexAnywhere(regex: CString, str: CString) returns (matches: bool)
    requires regex.Text? ==> IsCString(regex.s) && Read(regex.s).Some?
    requires str.Text? ==> IsCString(str.s) && Addressable(str.s)
    ensures matches <==> regex.Text? && str.Text? && DenotesSomewhere(Read(regex.s).value, str.s)
  {
    if regex.Null? || str.Null? {
      return false;
    }
    ghost var re := Read(regex.s).value;
    assert str.s[0..] == str.s;
    if At(regex.s, 0) == '^' {
      matches := MatchRegexAtHead(regex.s[1..], str.s);
      return;
    }
    var from := 0;
    while true
      invariant from <= |str.s|
      invariant forall k :: 0 <= k < from ==> !DenotesPrefix(re.tail, str.s[k..])
      decreases |str.s| - from
    {
      matches := MatchRegexAtHead(regex.s, str.s[from..]);
      if matches {
        return true;
      }
      if At(str.s, from) == '\0' {
        return false;
      }
      from := from + 1;
    }
  }
}
