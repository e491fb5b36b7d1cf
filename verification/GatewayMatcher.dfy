/**
The gateway's topic matcher, Topic::isMatch of MQTTSNGWTopic.cpp: a loop that cuts one level off
both strings at a time with find and substr.
*/
module GatewayMatcher {
  import opened Basics
  import opened TopicLevels

  // What the loop decides, read off level by level.
  predicate GatewayLevels(filter: seq<string>, name: seq<string>)
    requires |filter| >= 1 && |name| >= 1
  {
    if |filter| > 1 && |name| > 1 then
      filter[0] == "#" || ((filter[0] == "+" || filter[0] == name[0]) && GatewayLevels(filter[1..], name[1..]))
    else if |filter| == 1 && |name| == 1 then
      IsWildcard(filter[0]) || filter[0] == name[0]
    else if |name| == 1 then
      filter[0] == name[0] && filter[1..] == ["#"]
    else
      filter == ["#"]
  }

  // string::find('/', pos) and what it says about the levels of the rest of the string.
  method FindSlash(s: string, pos: nat) returns (loc: Option<nat>)
    requires pos <= |s|
    ensures loc.None? <==> SlashAt(s[pos..]) == |s| - pos
    ensures loc.Some? ==> loc.value == pos + SlashAt(s[pos..]) && loc.value < |s|
    ensures loc.None? ==> Split(s[pos..]) == [s[pos..]]
    ensures loc.Some? ==> Split(s[pos..]) == [s[pos..loc.value]] + Split(s[loc.value + 1..])
  {
    hide Split;
    var i := pos;
    while i < |s| && s[i] != '/'
      invariant pos <= i <= |s| && SlashAt(s[pos..]) == i - pos + SlashAt(s[i..])
    {
      assert s[i..][1..] == s[i + 1..];
      i := i + 1;
    }
    SplitStep(s[pos..]);
    if i == |s| {
      loc := None;
    } else {
      loc := Some(i);
      assert s[pos..][..i - pos] == s[pos..i];
      assert s[pos..][i - pos + 1..] == s[i + 1..];
    }
  }

  lemma JoinHash(s: string)
    ensures Split(s) == ["#"] <==> s == "#"
  {
    SplitJoin(s);
    if s == "#" {
      assert SlashAt(s) == 1;
    }
  }

  method IsMatch(filter: string, name: string) returns (matched: bool)
    ensures matched == GatewayLevels(Split(filter), Split(name))
  {
    hide Split, SlashAt;
    var tpos: nat, pos: nat := 0, 0;
    assert filter[0..] == filter && name[0..] == name;
    while true
      invariant tpos <= |filter| && pos <= |name|
      invariant GatewayLevels(Split(filter), Split(name)) == GatewayLevels(Split(filter[tpos..]), Split(name[pos..]))
      decreases |name| - pos
    {
      var loc := FindSlash(name, pos);
      var tloc := FindSlash(filter, tpos);
      if loc.Some? && tloc.Some? {
        var subtopic := name[pos..loc.value];
        var subtopict := filter[tpos..tloc.value];
        if subtopict == "#" {
          return true;
        } else if subtopict == "+" {
          tpos := tloc.value + 1;
          if tpos > |filter| {
            assert false;   // the position after a separator is never beyond the end
          }
          pos := loc.value + 1;
        } else if subtopic != subtopict {
          return false;
        } else {
          tpos := tloc.value + 1;
          if tpos > |filter| {
            assert false;   // as above
          }
          pos := loc.value + 1;
        }
      } else if loc.None? && tloc.None? {
        var subtopict := filter[tpos..];
        return subtopict == "#" || subtopict == "+" || name[pos..] == subtopict;
      } else if loc.None? {
        if name[pos..] != filter[tpos..tloc.value] {
          return false;
        }
        JoinHash(filter[tloc.value + 1..]);
        return filter[tloc.value + 1..] == "#";
      } else {
        JoinHash(filter[tpos..]);
        return filter[tpos..] == "#";
      }
    }
  }

  // A filter ending in "+/#" whose '+' meets the last level of the name: the one case missed.
  predicate EndsAtPlus(filter: seq<string>, name: seq<string>) {
    && |filter| == |name| + 1 && |name| >= 1
    && filter[|filter| - 1] == "#" && filter[|filter| - 2] == "+" && name[|name| - 1] != "+"
  }

  // For every well-formed filter and every name the gateway's answer is that of the standard,
  // except that it refuses the names of EndsAtPlus.
  lemma {:induction false} GatewayExact(filter: seq<string>, name: seq<string>)
    requires WellFormed(filter) && |filter| >= 1 && |name| >= 1
    ensures GatewayLevels(filter, name) <==> Matches(filter, name) && !EndsAtPlus(filter, name)
  {
    WellFormedTail(filter);
    if filter[0] == "#" {
      assert filter == ["#"];
    } else if |filter| > 1 && |name| > 1 {
      GatewayExact(filter[1..], name[1..]);
    } else if |filter| == 1 && |name| == 1 {
      assert Matches(filter[1..], name[1..]);
    } else if |name| == 1 {
      assert Matches(filter[1..], []) <==> filter[1] == "#";
      if filter[1] == "#" {
        WellFormedTail(filter[1..]);
      }
    } else {
      assert !Matches([], name[1..]);
    }
  }

  // The missed family is not empty: "a/+/#" matches "a/b" by the standard.
  lemma GatewayMisses()
    ensures Matches(["a", "+", "#"], ["a", "b"]) && !GatewayLevels(["a", "+", "#"], ["a", "b"])
  {
    assert Matches(["+", "#"], ["b"]) by { assert Matches(["#"], []); }
    assert GatewayLevels(["a", "+", "#"], ["a", "b"]) == GatewayLevels(["+", "#"], ["b"]);
  }

  // The exact meaning of the gateway's matcher on strings.
  method MatchTopic(filter: string, name: string) returns (matched: bool)
    requires WellFormed(Split(filter))
    ensures matched <==> Matches(Split(filter), Split(name)) && !EndsAtPlus(Split(filter), Split(name))
  {
    matched := IsMatch(filter, name);
    GatewayExact(Split(filter), Split(name));
  }
}
