/** gtest's name filters, and what the filter for death test cases lets through. A C string is
    represented by its characters up to the terminator. */
module Filters {

  /** The part of a filter before its first separator. */
  function FirstPattern(filter: string): (pattern: string)
    ensures |pattern| <= |filter|
  {
    if filter == "" || filter[0] == ':' then "" else [filter[0]] + FirstPattern(filter[1..])
  }

  /** All patterns of a filter; at least one, possibly empty. */
  function Patterns(filter: string): seq<string>
    decreases |filter|
  {
    var first := FirstPattern(filter);
    if |first| == |filter| then [first] else [first] + Patterns(filter[|first| + 1..])
  }

  /** What a pattern stands for: ? one character, * any characters, others themselves. */
  ghost predicate Denotes(pattern: string, s: string) {
    if pattern == "" then s == ""
    else if pattern[0] == '?' then s != "" && Denotes(pattern[1..], s[1..])
    else if pattern[0] == '*' then exists k :: 0 <= k <= |s| && Denotes(pattern[1..], s[k..])
    else s != "" && s[0] == pattern[0] && Denotes(pattern[1..], s[1..])
  }

  /** The recursive matcher agrees with the meaning of the filter's first pattern. */
  function PatternMatchesString(pattern: string, s: string): (matches: bool)
    ensures matches <==> Denotes(FirstPattern(pattern), s)
    decreases |pattern|, |s|
  {
    if pattern == "" || pattern[0] == ':' then s == ""
    else
      assert FirstPattern(pattern)[1..] == FirstPattern(pattern[1..]);
      if pattern[0] == '?' then s != "" && PatternMatchesString(pattern[1..], s[1..])
      else if pattern[0] == '*' then
        StarUnfolds(FirstPattern(pattern), s);
        (s != "" && PatternMatchesString(pattern, s[1..])) || PatternMatchesString(pattern[1..], s)
      else s != "" && pattern[0] == s[0] && PatternMatchesString(pattern[1..], s[1..])
  }

  lemma StarUnfolds(pattern: string, s: string)
    requires pattern != "" && pattern[0] == '*'
    ensures Denotes(pattern, s)
            <==> (s != "" && Denotes(pattern, s[1..])) || Denotes(pattern[1..], s)
  {
    assert s[0..] == s;
    if Denotes(pattern, s) {
      var k :| 0 <= k <= |s| && Denotes(pattern[1..], s[k..]);
      if k > 0 {
        assert s[1..][k - 1..] == s[k..];
      }
    }
    if s != "" && Denotes(pattern, s[1..]) {
      var k :| 0 <= k <= |s[1..]| && Denotes(pattern[1..], s[1..][k..]);
      assert s[1..][k..] == s[k + 1..];
    }
  }

  /** The name is what one of the filter's patterns stands for. */
  ghost predicate Selects(filter: string, name: string) {
    exists i :: 0 <= i < |Patterns(filter)| && Denotes(Patterns(filter)[i], name)
  }

  method MatchesFilter(name: string, filter: string) returns (matches: bool)
    ensures matches <==> Selects(filter, name)
  {
    var current := filter;
    ghost var tried := [];
    while true
      invariant Patterns(filter) == tried + Patterns(current)
      invariant forall i :: 0 <= i < |tried| ==> !Denotes(tried[i], name)
      decreases |current|
    {
      ghost var first := FirstPattern(current);
      if PatternMatchesString(current, name) {
        assert Patterns(filter)[|tried|] == first;
        return true;
      }
      var colon := FindColon(current);
      if colon == |current| {
        return false;
      }
      tried := tried + [first];
      current := current[colon + 1..];
    }
  }

  /** Index of the first separator, or the length of the string. */
  method FindColon(s: string) returns (colon: nat)
    ensures colon == |FirstPattern(s)|
  {
    colon := 0;
    while colon < |s| && s[colon] != ':'
      invariant colon <= |s|
      invariant |FirstPattern(s)| == colon + |FirstPattern(s[colon..])|
    {
      colon := colon + 1;
    }
  }

  const DeathTestCaseFilter := "*DeathTest:*DeathTest/*"
  const Death := "DeathTest"

  /** Name has DeathTest at index k, followed by a slash. */
  predicate SlashAfter(name: string, k: nat) {
    k + |Death| < |name| && name[k..k + |Death|] == Death && name[k + |Death|] == '/'
  }

  /** The naming convention: a name that ends in DeathTest, or one with DeathTest before a slash. */
  ghost predicate IsDeathTestName(name: string) {
    (exists k :: 0 <= k <= |name| && name[k..] == Death) || (exists k: nat :: SlashAfter(name, k))
  }

  lemma {:induction false} PlainPrefix(plain: string, rest: string, s: string)
    requires forall i :: 0 <= i < |plain| ==> plain[i] != '?' && plain[i] != '*'
    ensures Denotes(plain + rest, s) <==> |plain| <= |s| && s[..|plain|] == plain && Denotes(rest, s[|plain|..])
    decreases |plain|
  {
    if plain == "" {
      assert plain + rest == rest;
      assert s[0..] == s;
    } else {
      assert (plain + rest)[1..] == plain[1..] + rest;
      if s != "" && s[0] == plain[0] {
        PlainPrefix(plain[1..], rest, s[1..]);
        assert plain == [plain[0]] + plain[1..];
        if |plain| <= |s| {
          assert s[..|plain|] == [s[0]] + s[1..][..|plain[1..]|];
          assert s[1..][|plain[1..]|..] == s[|plain|..];
          assert s[..|plain|][1..] == s[1..][..|plain[1..]|];
        }
      } else if |plain| <= |s| {
        assert s[..|plain|][0] == s[0];
      }
    }
  }

  lemma {:induction false} FirstOfJoined(pattern: string, rest: string)
    requires ':' !in pattern
    ensures FirstPattern(pattern) == pattern
    ensures FirstPattern(pattern + ":" + rest) == pattern
    decreases |pattern|
  {
    if pattern == "" {
      assert pattern + ":" + rest == ":" + rest;
    } else {
      FirstOfJoined(pattern[1..], rest);
      assert (pattern + ":" + rest)[1..] == pattern[1..] + ":" + rest;
    }
  }

  lemma PatternsOfJoined(pattern: string, rest: string)
    requires ':' !in pattern && ':' !in rest
    ensures Patterns(pattern + ":" + rest) == [pattern, rest]
  {
    FirstOfJoined(pattern, rest);
    FirstOfJoined(rest, "");
    assert (pattern + ":" + rest)[|pattern| + 1..] == rest;
  }

  lemma EndsInDeath(name: string)
    ensures Denotes("*" + Death, name) <==> exists k :: 0 <= k <= |name| && name[k..] == Death
  {
    var pattern := "*" + Death;
    assert pattern[1..] == Death;
    forall k | 0 <= k <= |name|
      ensures Denotes(Death, name[k..]) <==> name[k..] == Death
    {
      PlainPrefix(Death, "", name[k..]);
      assert Death + "" == Death;
      if name[k..] == Death {
        assert name[k..][..|Death|] == Death;
      }
    }
  }

  lemma SlashFollows(name: string, k: nat)
    requires k <= |name|
    ensures Denotes(Death + "/" + "*", name[k..]) <==> SlashAfter(name, k)
  {
    hide Denotes;
    var plain := Death + "/";
    PlainPrefix(plain, "*", name[k..]);
    if |plain| <= |name[k..]| {
      AnythingGoes(name[k..][|plain|..]);
      var m := k + |Death|;
      var start := name[k..][..|plain|];
      assert start == name[k..m] + [name[m]];
      assert plain[..|Death|] == Death && plain[|Death|] == '/';
      assert start[..|Death|] == name[k..m] && start[|Death|] == name[m];
    }
  }

  lemma HasDeathSlash(name: string)
    ensures Denotes("*" + Death + "/*", name) <==> exists k: nat :: SlashAfter(name, k)
  {
    hide SlashAfter;
    var pattern, rest := "*" + Death + "/*", Death + "/" + "*";
    assert pattern[1..] == rest;
    assert Denotes(pattern, name) <==> exists k :: 0 <= k <= |name| && Denotes(rest, name[k..]);
    forall k | 0 <= k <= |name|
      ensures Denotes(rest, name[k..]) <==> SlashAfter(name, k)
    {
      SlashFollows(name, k);
    }
    SlashWithin(name);
  }

  lemma SlashWithin(name: string)
    ensures forall k: nat :: SlashAfter(name, k) ==> k <= |name|
  {
  }

  lemma AnythingGoes(s: string)
    ensures Denotes("*", s)
  {
    assert Denotes("*"[1..], s[|s|..]);
  }

  /** The filter selects exactly the names that follow the convention for death tests. */
  lemma DeathFilterIsConvention(name: string)
    ensures Selects(DeathTestCaseFilter, name) <==> IsDeathTestName(name)
  {
    hide Denotes, SlashAfter, Patterns;
    var first, second := "*" + Death, "*" + Death + "/*";
    PatternsOfJoined(first, second);
    var all := Patterns(DeathTestCaseFilter);
    assert first + ":" + second == DeathTestCaseFilter;
    assert all == [first, second];
    assert Selects(DeathTestCaseFilter, name) <==> Denotes(all[0], name) || Denotes(all[1], name);
    EndsInDeath(name);
    HasDeathSlash(name);
  }
}
