/**
Topic names and topic filters as sequences of levels, and the level-by-level matching rule of
section 4.7.1 of MQTT Version 3.1.1.
*/
module TopicLevels {

  // Index of the first '/' of s, |s| when there is none.
  function SlashAt(s: string): (i: nat)
    ensures i <= |s| && '/' !in s[..i]
    ensures i < |s| ==> s[i] == '/'
  {
    if s == "" || s[0] == '/' then 0
    else
      var i := SlashAt(s[1..]) + 1;
      assert s[..i] == [s[0]] + s[1..][..i - 1];
      i
  }

  function Split(s: string): (levels: seq<string>)
    ensures |levels| >= 1
  {
    var i := SlashAt(s);
    if i == |s| then [s] else [s[..i]] + Split(s[i + 1..])
  }

  lemma {:induction false} SplitStep(s: string)
    ensures SlashAt(s) == |s| ==> Split(s) == [s]
    ensures SlashAt(s) < |s| ==> Split(s) == [s[..SlashAt(s)]] + Split(s[SlashAt(s) + 1..])
  {
  }

  function Join(levels: seq<string>): string
    requires |levels| >= 1
  {
    if |levels| == 1 then levels[0] else levels[0] + "/" + Join(levels[1..])
  }

  lemma JoinOne(x: string)
    ensures Join([x]) == x
  {
  }

  lemma JoinStep(x: string, levels: seq<string>)
    requires |levels| >= 1
    ensures Join([x] + levels) == x + "/" + Join(levels)
  {
    assert ([x] + levels)[1..] == levels;
  }

  // Splitting and joining are inverse, so reasoning on levels loses nothing.
  lemma {:induction false} SplitJoin(s: string)
    ensures Join(Split(s)) == s
  {
    hide Split, Join;
    var i := SlashAt(s);
    SplitStep(s);
    if i < |s| {
      SplitJoin(s[i + 1..]);
      JoinStep(s[..i], Split(s[i + 1..]));
      assert s[i] == '/' && s == s[..i] + [s[i]] + s[i + 1..];
    } else {
      JoinOne(s);
    }
  }

  lemma {:induction false} SlashAtLevel(x: string, rest: string)
    requires '/' !in x && (rest == "" || rest[0] == '/')
    ensures SlashAt(x + rest) == |x|
  {
    if x == "" {
      assert x + rest == rest;
    } else {
      assert (x + rest)[1..] == x[1..] + rest;
      assert x[0] in x;
      SlashAtLevel(x[1..], rest);
    }
  }

  lemma PrependLevel(x: string, s: string)
    requires '/' !in x
    ensures Split(x + "/" + s) == [x] + Split(s)
  {
    hide Split, SlashAt;
    var t := x + "/" + s;
    assert t == x + ("/" + s);
    SlashAtLevel(x, "/" + s);
    SplitStep(t);
    assert t[..|x|] == x && t[|x| + 1..] == s;
  }

  lemma {:induction false} JoinSplit(levels: seq<string>)
    requires |levels| >= 1 && forall i :: 0 <= i < |levels| ==> '/' !in levels[i]
    ensures Split(Join(levels)) == levels
  {
    if |levels| == 1 {
      assert levels[0] + "" == levels[0];
      SlashAtLevel(levels[0], "");
    } else {
      JoinSplit(levels[1..]);
      PrependLevel(levels[0], Join(levels[1..]));
    }
  }

  // '#' matches the levels from its place on, the parent level included; '+' matches one level.
  predicate Matches(filter: seq<string>, name: seq<string>) {
    if filter == [] then name == []
    else if filter[0] == "#" then true
    else if name == [] then false
    else (filter[0] == "+" || filter[0] == name[0]) && Matches(filter[1..], name[1..])
  }

  // Wildcards fill a whole level, and '#' is the last one.
  predicate WellFormed(filter: seq<string>) {
    forall i :: 0 <= i < |filter| ==>
      && ('#' in filter[i] ==> filter[i] == "#" && i == |filter| - 1)
      && ('+' in filter[i] ==> filter[i] == "+")
  }

  predicate IsWildcard(level: string) { level == "#" || level == "+" }

  predicate WellFormedName(name: seq<string>) {
    |name| >= 1 && forall i :: 0 <= i < |name| ==> '#' !in name[i] && '+' !in name[i] && '/' !in name[i]
  }

  lemma WellFormedTail(filter: seq<string>)
    requires WellFormed(filter) && filter != []
    ensures WellFormed(filter[1..])
    ensures '#' in filter[0] ==> filter == ["#"]
    ensures '+' in filter[0] ==> filter[0] == "+"
  {
    forall i | 0 <= i < |filter[1..]|
      ensures ('#' in filter[1..][i] ==> filter[1..][i] == "#" && i == |filter[1..]| - 1)
           && ('+' in filter[1..][i] ==> filter[1..][i] == "+")
    {
      assert filter[1..][i] == filter[i + 1];
    }
  }
}
