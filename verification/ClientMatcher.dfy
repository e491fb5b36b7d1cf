/**
The client's topic matcher, isTopicMatched of MQTTClient.h: one character cursor in the filter and
one in the name.
*/
module ClientMatcher {
  import opened TopicLevels

  // What the cursors decide from here on; the end of a string stands for its terminator.
  predicate Cursor(f: string, n: string)
    decreases |f|
  {
    if f == "" || n == "" then
      n == "" && (f == "" || f == "/" || f == "/#")
    else if n[0] == '/' && f[0] != '/' then false
    else if f[0] != '+' && f[0] != '#' && f[0] != n[0] then false
    else if f[0] == '+' then Cursor(f[1..], n[SlashAt(n)..])
    else if f[0] == '#' then Cursor(f[1..], "")
    else Cursor(f[1..], n[1..])
  }

  method IsTopicMatched(filter: string, name: string) returns (matched: bool)
    ensures matched == Cursor(filter, name)
  {
    hide SlashAt;
    var curf, curn := 0, 0;
    assert filter[0..] == filter && name[0..] == name;
    while curf < |filter| && curn < |name|
      invariant 0 <= curf <= |filter| && 0 <= curn <= |name|
      invariant Cursor(filter, name) == Cursor(filter[curf..], name[curn..])
      decreases |filter| - curf
    {
      ghost var f, n := filter[curf..], name[curn..];
      if name[curn] == '/' && filter[curf] != '/' {
        break;
      }
      if filter[curf] != '+' && filter[curf] != '#' && filter[curf] != name[curn] {
        break;
      }
      if filter[curf] == '+' {
        curn := SkipLevel(name, curn);
      } else if filter[curf] == '#' {
        curn := |name| - 1;
      }
      assert f[1..] == filter[curf + 1..];
      assert filter[curf] != '+' && filter[curf] != '#' ==> n[1..] == name[curn + 1..];
      curf, curn := curf + 1, curn + 1;
    }
    matched := Finish(filter, curf, name, curn);
  }

  // The inner loop of '+': the last character before the next separator or the end.
  method SkipLevel(name: string, start: nat) returns (curn: nat)
    requires start < |name| && name[start] != '/'
    ensures start <= curn < |name|
    ensures name[start..][SlashAt(name[start..])..] == name[curn + 1..]
  {
    curn := start;
    var nextpos := curn + 1;
    assert SlashAt(name[start..]) == 1 + SlashAt(name[start + 1..]) by {
      assert name[start..][1..] == name[start + 1..];
    }
    while nextpos < |name| && name[nextpos] != '/'
      invariant start <= curn < |name| && nextpos == curn + 1
      invariant SlashAt(name[start..]) == curn - start + 1 + SlashAt(name[curn + 1..])
    {
      assert name[nextpos..][1..] == name[nextpos + 1..];
      curn := curn + 1;
      nextpos := curn + 1;
    }
  }

  // The check after the loop, with its allowance for a filter that goes on with "/#".
  method Finish(filter: string, stop: nat, name: string, curn: nat) returns (matched: bool)
    requires stop <= |filter| && curn <= |name|
    requires stop < |filter| && curn < |name| ==> !Cursor(filter[stop..], name[curn..])
    ensures matched == Cursor(filter[stop..], name[curn..])
  {
    var curf := stop;
    if curf != |filter| {
      if filter[curf] == '/' {
        curf := curf + 1;
        if curf != |filter| && filter[curf] == '#' {
          curf := curf + 1;
        }
      }
    }
    ghost var f := filter[stop..];
    assert curf == |filter| ==> f == "" || f == "/" || f == "/#";
    matched := curn == |name| && curf == |filter|;
  }

  // ---------- level by level ----------

  // The same decision on levels. '+' and '#' do not accept an empty level, and a filter that has
  // one more, empty, level than the name is accepted.
  predicate ClientLevels(filter: seq<string>, name: seq<string>) {
    if filter == [] then name == []
    else if filter[0] == "#" then name == [] || name[0] != ""
    else if name == [] then filter == [""]
    else if filter[0] == "+" then name[0] != "" && ClientLevels(filter[1..], name[1..])
    else filter[0] == name[0] && ClientLevels(filter[1..], name[1..])
  }

  predicate AtBoundary(s: string) { s == "" || s[0] == '/' }

  // A literal level matches character by character exactly when it is equal.
  lemma {:induction false} LiteralLevel(x: string, rest: string, y: string, nrest: string)
    requires '/' !in x && '+' !in x && '#' !in x && '/' !in y && AtBoundary(rest) && AtBoundary(nrest)
    ensures Cursor(x + rest, y + nrest) == (x == y && Cursor(rest, nrest))
  {
    var f, n := x + rest, y + nrest;
    if x == "" || y == "" {
      assert x == "" ==> f == rest;
      assert y == "" ==> n == nrest;
      assert x != "" ==> f[0] == x[0] && x[0] in x;
      assert y != "" ==> n[0] == y[0] && y[0] in y;
    } else {
      assert f[0] == x[0] && n[0] == y[0] && x[0] in x && y[0] in y;
      assert f[1..] == x[1..] + rest && n[1..] == y[1..] + nrest;
      assert x == [x[0]] + x[1..] && y == [y[0]] + y[1..];
      LiteralLevel(x[1..], rest, y[1..], nrest);
    }
  }

  // At a level boundary the decision passes to the remaining levels.
  lemma Boundary(rest: string, nrest: string)
    requires AtBoundary(rest) && AtBoundary(nrest)
    ensures rest == "" ==> Cursor(rest, nrest) == (nrest == "")
    ensures rest != "" && nrest == "" ==> Cursor(rest, nrest) == (rest[1..] == "" || rest[1..] == "#")
    ensures rest != "" && nrest != "" ==> Cursor(rest, nrest) == Cursor(rest[1..], nrest[1..])
  {
  }

  function Rest(s: string): (r: seq<string>)
    requires AtBoundary(s)
  {
    if s == "" then [] else Split(s[1..])
  }

  lemma {:induction false} CursorIsLevels(f: string, n: string)
    requires WellFormed(Split(f))
    ensures Cursor(f, n) == ClientLevels(Split(f), Split(n))
    decreases |f|, 1
  {
    hide Split, SlashAt, Cursor;
    var i, j := SlashAt(f), SlashAt(n);
    var x, rest, y, nrest := f[..i], f[i..], n[..j], n[j..];
    assert f == x + rest && n == y + nrest;
    FirstLevel(f);
    FirstLevel(n);
    WellFormedTail(Split(f));
    if '#' in x {
      assert Split(f) == ["#"];
      HashLast(f);
      HashCursor(n);
    } else {
      BoundaryIsLevels(f, rest, nrest);
      if '+' in x {
        PlusCursor(rest, n);
      } else {
        LiteralLevel(x, rest, y, nrest);
      }
    }
  }

  lemma HashCursor(n: string)
    ensures Cursor("#", n) == (n != "" && n[0] != '/')
  {
    assert "#"[1..] == "";
  }

  lemma PlusCursor(rest: string, n: string)
    ensures Cursor("+" + rest, n) == (n != "" && n[0] != '/' && Cursor(rest, n[SlashAt(n)..]))
  {
    assert ("+" + rest)[0] == '+' && ("+" + rest)[1..] == rest;
  }

  lemma FirstLevel(s: string)
    ensures AtBoundary(s[SlashAt(s)..])
    ensures Split(s) == [s[..SlashAt(s)]] + Rest(s[SlashAt(s)..])
  {
    hide Split;
    SplitStep(s);
    var i := SlashAt(s);
    if i < |s| {
      assert s[i..][1..] == s[i + 1..];
    } else {
      assert s[..i] == s;
    }
  }

  lemma HashLast(f: string)
    requires Split(f) == ["#"]
    ensures f == "#"
  {
    SplitJoin(f);
  }

  lemma {:induction false} BoundaryIsLevels(f: string, rest: string, nrest: string)
    requires AtBoundary(rest) && AtBoundary(nrest) && |rest| <= |f| && WellFormed(Rest(rest))
    ensures Cursor(rest, nrest) == ClientLevels(Rest(rest), Rest(nrest))
    decreases |f|, 0
  {
    Boundary(rest, nrest);
    if rest != "" && nrest != "" {
      CursorIsLevels(rest[1..], nrest[1..]);
    } else if rest != "" {
      var g := rest[1..];
      SplitJoin(g);
      SplitStep(g);
    }
  }

  // ---------- against the standard ----------

  // No wildcard of the filter meets an empty level of the name.
  predicate Filled(filter: seq<string>, name: seq<string>) {
    forall i :: 0 <= i < |filter| && i < |name| && IsWildcard(filter[i]) ==> name[i] != ""
  }

  // The filter matches but for one empty level that it has more than the name.
  predicate OneMore(filter: seq<string>, name: seq<string>) {
    |filter| == |name| + 1 && filter[|name|] == "" && Matches(filter[..|name|], name)
  }

  // The client's decision in terms of the standard's, for every filter and name.
  lemma {:induction false} ClientExactly(filter: seq<string>, name: seq<string>)
    requires WellFormed(filter)
    ensures ClientLevels(filter, name) <==> Filled(filter, name) && (Matches(filter, name) || OneMore(filter, name))
  {
    if filter != [] && filter[0] != "#" && name != [] {
      var f, n := filter[1..], name[1..];
      WellFormedTail(filter);
      ClientExactly(f, n);
      FilledTail(filter, name);
      if |filter| == |name| + 1 {
        assert filter[..|name|][1..] == f[..|n|] && f[|n|] == filter[|name|];
      }
    } else if filter != [] && filter[0] == "#" {
      HashFilter(filter);
    }
  }

  lemma FilledTail(filter: seq<string>, name: seq<string>)
    requires filter != [] && name != []
    ensures Filled(filter, name) <==> (IsWildcard(filter[0]) ==> name[0] != "") && Filled(filter[1..], name[1..])
  {
    var f, n := filter[1..], name[1..];
    assert forall i :: 0 <= i < |f| && i < |n| ==> f[i] == filter[i + 1] && n[i] == name[i + 1];
    assert forall i :: 1 <= i < |filter| && i < |name| ==> filter[i] == f[i - 1] && name[i] == n[i - 1];
  }

  lemma HashFilter(filter: seq<string>)
    requires WellFormed(filter) && filter != [] && filter[0] == "#"
    ensures filter == ["#"]
  {
    assert '#' in filter[0];
  }

  // Hence client and standard differ on a filter and a name exactly when the standard matches but
  // a wildcard meets an empty level, or when the filter has one empty level more.
  lemma PairsWhereClientAgrees(filter: seq<string>, name: seq<string>)
    requires WellFormed(filter)
    ensures ClientLevels(filter, name) == Matches(filter, name) <==>
            (Matches(filter, name) ==> Filled(filter, name)) && !(OneMore(filter, name) && Filled(filter, name))
  {
    ClientExactly(filter, name);
    if OneMore(filter, name) {
      OneMoreFails(filter, name);
    }
  }

  lemma {:induction false} OneMoreFails(filter: seq<string>, name: seq<string>)
    requires WellFormed(filter) && OneMore(filter, name)
    ensures !Matches(filter, name)
  {
    if filter[0] == "#" {
      HashFilter(filter);
    } else if name != [] {
      WellFormedTail(filter);
      assert filter[..|name|][1..] == filter[1..][..|name| - 1];
      OneMoreFails(filter[1..], name[1..]);
    }
  }

  predicate TrailingEmpty(filter: seq<string>) {
    |filter| >= 2 && filter[|filter| - 1] == ""
  }

  // On names without empty levels the client follows the standard for every well-formed filter
  // that does not end in '/'.
  lemma {:induction false} AgreeOnFullNames(filter: seq<string>, name: seq<string>)
    requires WellFormed(filter) && "" !in name
    requires filter != [] && filter[|filter| - 1] == "" ==> |filter| == 1 && name != []
    ensures ClientLevels(filter, name) == Matches(filter, name)
  {
    if filter != [] && filter[0] != "#" && name != [] {
      WellFormedTail(filter);
      AgreeOnFullNames(filter[1..], name[1..]);
    }
  }

  // A name with all levels non-empty is exactly one on which no filter without a trailing '/' errs.
  lemma NamesWhereClientAgrees(name: seq<string>)
    requires WellFormedName(name)
    ensures "" !in name <==>
            forall filter: seq<string> :: WellFormed(filter) && filter != [] && !TrailingEmpty(filter) ==>
              ClientLevels(filter, name) == Matches(filter, name)
  {
    if "" !in name {
      forall filter: seq<string> | WellFormed(filter) && filter != [] && !TrailingEmpty(filter)
        ensures ClientLevels(filter, name) == Matches(filter, name)
      {
        AgreeOnFullNames(filter, name);
      }
    } else {
      var i :| 0 <= i < |name| && name[i] == "";
      var filter := name[..i] + ["#"];
      HashMeetsEmpty(name, i);
      assert WellFormed(filter) && !TrailingEmpty(filter);
      assert ClientLevels(filter, name) != Matches(filter, name);
    }
  }

  lemma {:induction false} HashMeetsEmpty(name: seq<string>, i: nat)
    requires i < |name| && name[i] == "" && forall k :: 0 <= k < i ==> !IsWildcard(name[k])
    ensures Matches(name[..i] + ["#"], name) && !ClientLevels(name[..i] + ["#"], name)
  {
    var filter := name[..i] + ["#"];
    if i > 0 {
      assert filter[1..] == name[1..][..i - 1] + ["#"];
      HashMeetsEmpty(name[1..], i - 1);
    }
  }

  // A filter on which the client is right for every name is exactly one without wildcards that
  // does not end in '/'.
  lemma FiltersWhereClientAgrees(filter: seq<string>)
    requires WellFormed(filter) && filter != [] && forall i :: 0 <= i < |filter| ==> '/' !in filter[i]
    ensures (forall i :: 0 <= i < |filter| ==> !IsWildcard(filter[i])) && !TrailingEmpty(filter) <==>
            forall name: seq<string> :: WellFormedName(name) ==> ClientLevels(filter, name) == Matches(filter, name)
  {
    if exists i :: 0 <= i < |filter| && IsWildcard(filter[i]) {
      var i := FirstWildcard(filter);
      var name := Emptied(filter, i);
      WildcardMeetsEmpty(filter, i);
      assert WellFormedName(name);
      assert ClientLevels(filter, name) != Matches(filter, name);
    } else if TrailingEmpty(filter) {
      var name := filter[..|filter| - 1];
      ExtraEmptyLevel(filter);
      assert WellFormedName(name);
      assert ClientLevels(filter, name) != Matches(filter, name);
    } else {
      forall name: seq<string> | WellFormedName(name) ensures ClientLevels(filter, name) == Matches(filter, name) {
        LiteralAgrees(filter, name);
      }
    }
  }

  function FirstWildcard(filter: seq<string>): (i: nat)
    requires exists i :: 0 <= i < |filter| && IsWildcard(filter[i])
    ensures i < |filter| && IsWildcard(filter[i]) && forall k :: 0 <= k < i ==> !IsWildcard(filter[k])
  {
    if IsWildcard(filter[0]) then 0
    else
      assert exists i :: 0 <= i < |filter[1..]| && IsWildcard(filter[1..][i]) by {
        var i :| 0 <= i < |filter| && IsWildcard(filter[i]);
        assert filter[1..][i - 1] == filter[i];
      }
      var i := FirstWildcard(filter[1..]) + 1;
      assert forall k :: 1 <= k < i ==> filter[k] == filter[1..][k - 1];
      i
  }

  function Filling(filter: seq<string>, i: nat, k: nat): string
    requires k < |filter|
  {
    if k == i then "" else if IsWildcard(filter[k]) then "x" else filter[k]
  }

  // A name that fills the wildcards of a filter, the one at i with an empty level.
  function Emptied(filter: seq<string>, i: nat): (name: seq<string>)
    ensures |name| == |filter|
    ensures forall k :: 0 <= k < |name| ==> name[k] == Filling(filter, i, k)
  {
    seq(|filter|, k requires 0 <= k < |filter| => Filling(filter, i, k))
  }

  lemma {:induction false} FilledMatches(filter: seq<string>, name: seq<string>)
    requires WellFormed(filter) && |name| == |filter|
    requires forall k :: 0 <= k < |name| ==> IsWildcard(filter[k]) || name[k] == filter[k]
    ensures Matches(filter, name)
  {
    if filter != [] {
      WellFormedTail(filter);
      FilledMatches(filter[1..], name[1..]);
    }
  }

  lemma {:induction false} ClientRefusesEmpty(filter: seq<string>, name: seq<string>, i: nat)
    requires WellFormed(filter) && i < |filter| == |name| && IsWildcard(filter[i]) && name[i] == ""
    requires forall k :: 0 <= k < i ==> !IsWildcard(filter[k])
    ensures !ClientLevels(filter, name)
  {
    if i > 0 {
      WellFormedTail(filter);
      ClientRefusesEmpty(filter[1..], name[1..], i - 1);
    }
  }

  lemma WildcardMeetsEmpty(filter: seq<string>, i: nat)
    requires WellFormed(filter) && i < |filter| && IsWildcard(filter[i])
    requires forall k :: 0 <= k < i ==> !IsWildcard(filter[k])
    ensures Matches(filter, Emptied(filter, i)) && !ClientLevels(filter, Emptied(filter, i))
  {
    FilledMatches(filter, Emptied(filter, i));
    ClientRefusesEmpty(filter, Emptied(filter, i), i);
  }

  lemma {:induction false} ExtraEmptyLevel(filter: seq<string>)
    requires |filter| >= 1 && filter[|filter| - 1] == "" && forall k :: 0 <= k < |filter| ==> !IsWildcard(filter[k])
    ensures ClientLevels(filter, filter[..|filter| - 1]) && !Matches(filter, filter[..|filter| - 1])
  {
    if |filter| >= 2 {
      assert filter[..|filter| - 1][1..] == filter[1..][..|filter| - 2];
      ExtraEmptyLevel(filter[1..]);
    }
  }

  lemma {:induction false} LiteralAgrees(filter: seq<string>, name: seq<string>)
    requires forall k :: 0 <= k < |filter| ==> !IsWildcard(filter[k])
    requires filter == [""] ==> name != []
    requires !TrailingEmpty(filter)
    ensures ClientLevels(filter, name) == Matches(filter, name)
  {
    if filter != [] && name != [] {
      LiteralAgrees(filter[1..], name[1..]);
    }
  }

  // The client's matcher on strings: its exact decision, and where that is the standard's.
  method MatchTopic(filter: string, name: string) returns (matched: bool)
    requires WellFormed(Split(filter))
    ensures var f, n := Split(filter), Split(name); matched <==> Filled(f, n) && (Matches(f, n) || OneMore(f, n))
    ensures !TrailingEmpty(Split(filter)) && "" !in Split(name) ==> matched == Matches(Split(filter), Split(name))
  {
    matched := IsTopicMatched(filter, name);
    CursorIsLevels(filter, name);
    ClientExactly(Split(filter), Split(name));
    if !TrailingEmpty(Split(filter)) && "" !in Split(name) {
      AgreeOnFullNames(Split(filter), Split(name));
    }
  }
}
